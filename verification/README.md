# Phone-number marketplace: a verified model

The program sells one-time use of phone numbers. Several processes change shared rows through
guarded transactions, and money is kept in an append-only ledger. The rules themselves are small
pure functions; what is hard is that they stay right when they run together, on stale reads, with
lost updates, retries, crashes and takeovers. This project models those rules and the processes
around them in Dafny and proves what holds in every reachable state.

`dafny verify dfyconfig.toml` checks the whole project.

## How it is put together

**The number hold.** `OrderStateMachine` and `ListeningWindow` are the decisions. `Marketplace` holds
the rows and every atomic action of every worker: inventory writes, reservation, the idempotent order
commands with their look-up, read and commit as separate actions, SMS matching and delivery, and
reservation recovery. Any sequence of actions is a run, so whatever an attempt has read may be stale
when it writes. `HoldInvariant` proves one inductive invariant of orders, numbers, in-flight attempts
and stored idempotency records; `HoldGuarantees` draws the conclusions. `UnguardedDisable` adds the one
write without a guard. `OrderServices`, `AvailabilityServices` and `NumberServices` are the services and
jobs as imperative programs, proved to do what the actions do.

**Idempotency.** `Idempotency` is the engine for arbitrary effects: any interleaving refines an atomic
first-writer-wins table. `JobKeys` shows that the jobs' constant keys never collide.

**Money.** `Books` holds earnings, payouts, the ledger, their decisions and transactions, and services
whose reads may be stale. `BooksInvariant` and `BooksGuarantees` prove that ledger and projection agree
after every run, that the review's unchecked updates cannot miss, and that allocation is exactly once.
`BooksServices` are the services as programs with loops and rollback.

**Jobs.** `Paging`, `JobLease`, `CronRunner` and `SweepCoverage` cover the lease, the drain loop and what
a sweep has attempted by the time it finishes. `RetentionWalk` is the two-level retention cursor.

**Arithmetic and scanning.** `Binary64` defines correct rounding and proves ceiling division of safe
integers exact; `Pricing` computes prices that way. `Catalog`, `CatalogAdmin` and `Selection` cover served
dimensions, quotes and the choice of a number. `OtpScan`, `OtpGroups` and `OtpParsing` find a service's
code in an SMS.

**Client addresses.** `IpText` parses addresses; `ClientIp` matches prefixes and walks the forwarding chain.

## Conventions

Ids are natural numbers and clock readings are non-negative milliseconds. A request hash is represented by
the payload it binds, without the observed instant, so it is injective. A guarded write that matches no row
is `None`, and its transaction then leaves no trace. Throws are ordinary results. The platform configuration
is an argument of each commit, and a missing one makes the effect throw.

Some comments in the repository still say that an SMS success releases the number
(src/application/sms/matching-ports.ts:183-190). The code keeps it held until the hold is released
(src/domain/order-state-machine.ts:337-342), and the model follows the code.

Properties that turned out false of the code, each with a concrete failing case and the exact condition:

- a valid declaration can resolve to an inverted price guardrail (`Catalog.HalfOverrideCanInvertTheGuardrail`,
  `Catalog.ResolvedPricingValidExactlyWhenBoundsInOrder`);
- the first declaration of a catalog can reprice a live quote (`Catalog.FirstDeclarationCanRepriceALiveQuote`,
  `Catalog.UndeclaredQuoteHonouredExactlyWhenNothingIsOverridden`);
- the grouped scan can miss an intact run (`OtpGroups.GroupedScanMissesAStandingRun`,
  `OtpGroups.RunMissedExactlyWhenTakenByAPair`);
- an administrator's disable, which writes without an expected status, can hit a number taken since it was
  read and leave its order stuck (`UnguardedDisable.DisableCanHitAHeldNumber`,
  `UnguardedDisable.HoldsSurviveExactlyIdleLandings`);
- at its very expiry a waiting order both accepts an SMS and may be timed out
  (`HoldGuarantees.TimeoutMeetsMatcherExactlyAtExpiry`), and a device of exactly the timeout's age is both
  stale and live (`AvailabilityServices.StaleMeetsLiveExactlyAtTheTimeout`).

## Model

| member | source | states |
|---|---|---|
| OrderStateMachine.AppliedExactlyWhenLegal | src/domain/order-state-machine.ts:218-385 | a command is applied if and only if every guard of a legal move holds, and then moves the order to its target |
| OrderStateMachine.AppliedPairsTheNumber | src/domain/order-state-machine.ts:326-385 | an applied move always leaves the number held exactly while the new order status holds it, idle otherwise |
| OrderStateMachine.ReleasedAsAvailableExactlyWhen | src/domain/order-state-machine.ts:171-187 | a released number is offered again if and only if it is enabled and its device was seen alive within the window, never on a heartbeat later than now nor on an invalid instant |
| ListeningWindow.SweepClosesExactlyWhatNoLongerListens | src/domain/order-listening-window.ts:110-186 | at every valid instant an open hold either still listens or is released by the sweep, never both and never neither |
| ListeningWindow.ReleasedExactlyWhen | src/domain/order-listening-window.ts:133-186 | a buyer may end an open hold at any instant and the sweep only after the expiry; an ended hold is reported as such and everything else refused |
| ListeningWindow.ListensExactlyWhileTheSweepWaits | src/domain/order-listening-window.ts:110-165 | an order listens if and only if a sweep looking at it is told that its window is still open |
| ListeningWindow.ReleaseFreesOnlyItsOwnNumber | src/domain/order-listening-window.ts:133-186 | a release changes the number if and only if it is still held and still points at this order |
| HoldInvariant.EveryRunKeepsHolds | src/domain/order-state-machine.ts:218-385 | the hold invariant, with all it says of in-flight attempts and stored records, holds after every interleaving of every worker |
| HoldInvariant.RunKeeps | src/application/orders/order-transition-service.ts:313-497 | from any invariant state every run keeps the invariant and only ever moves orders forward |
| HoldInvariant.TerminalEffectKeeps | src/application/orders/order-transition-service.ts:433-497 | a cancel, timeout or failure decided on a stale read keeps every hold, and its stored response is true from then on |
| HoldInvariant.CompleteEffectKeeps | src/application/orders/order-transition-service.ts:313-362 | a completion decided on a stale read keeps every hold, and its stored instant is the one on the order |
| HoldInvariant.TimeoutJobRefusedOnlyByOtherTerminals | src/application/orders/order-transition-service.ts:206-237 | only an order that is already in another terminal state refuses the timeout job |
| HoldInvariant.RecoveryNeverLeavesIt | src/application/cron-jobs/reservation-recovery-job.ts:188-192 | the recovery branch that leaves a locked reservation alone is unreachable |
| HoldInvariant.ApplySuccessKeeps | src/domain/order-state-machine.ts:337-342 | a first SMS success keeps the number held by its order |
| HoldInvariant.WriteNumberKeeps | src/application/numbers/number-management-service.ts:205-420 | disable, re-enable, availability, move and delete writes keep every hold although their reads may be stale |
| HoldInvariant.DeleteKeeps | src/application/numbers/number-management-service.ts:378-397 | a deletion that checks nothing when it lands keeps every hold, because no order may lose its number |
| UnguardedDisable.LandingKeepsHoldsExactlyWhenIdle | src/application/admin/admin-resource-service.ts:222-236 | a disable that lands keeps the holds if and only if nobody holds the number by then |
| UnguardedDisable.HoldsSurviveExactlyIdleLandings | src/application/admin/admin-resource-service.ts:217-236 | in a run with any other actions in between, the holds survive at every point if and only if every disable lands on an idle number |
| UnguardedDisable.UndisturbedDisableIsOneAction | src/application/admin/admin-resource-service.ts:217-236 | with nobody in between, the check and the write make the one action of the composed machine |
| UnguardedDisable.DisableCanHitAHeldNumber | src/infrastructure/database/admin-resource-gateway.ts:240-250 | a run in which an order takes the number between check and write ends with a waiting order on a disabled number |
| UnguardedDisable.OrderOnADisabledNumberIsStuck | src/domain/order-state-machine.ts:337-372 | every command on such an order is refused and changes nothing, and no SMS can settle it |
| HoldGuarantees.NumberHeldExactlyByItsOrder | src/domain/order-state-machine.ts:218-385 | in every reachable state a number is reserved or busy if and only if its current order is reserved, or waiting or successful with an open hold |
| HoldGuarantees.EveryHoldIsExclusive | src/domain/order-state-machine.ts:218-385 | every holding order holds its own number in the matching status, and no two orders hold one number |
| HoldGuarantees.HoldEndsOnce | src/domain/order-listening-window.ts:133-186 | a completion instant is written at most once, a terminal status is never left, and an ended hold never resumes |
| HoldGuarantees.CompletionsReportOneInstant | src/application/orders/order-transition-service.ts:338-361 | all successful completion requests for an order, executed or replayed, report one instant: the one on its row |
| HoldGuarantees.HoldLastsUntilItsOrderMoves | src/domain/order-listening-window.ts:133-186 | a held number keeps its order and status until that very order moves on |
| HoldGuarantees.CommandTouchesOnlyItsOwnHold | src/infrastructure/database/order-operations-gateway.ts:202-326 | a command changes no other order and no number bound to another order |
| HoldGuarantees.JobRecordsNeverBlockARelease | src/application/cron-jobs/order-completion-sweep-job.ts:66-74 | a record under the sweep key is never a rejection; one under the timeout key is one only if the order is in another terminal state |
| HoldGuarantees.JobAttemptFrees | src/application/cron-jobs/order-timeout-job.ts:71-102 | from every reachable state one undisturbed job attempt on a due order frees its number, whatever earlier attempts recorded |
| HoldGuarantees.CompletionDoesExactly | src/application/orders/order-transition-service.ts:313-362 | a completion answered at once stamps the instant and frees the number if its trigger may end the hold, reports an ended one, and is otherwise refused, nothing else changing |
| HoldGuarantees.TerminalCommandDoesExactly | src/application/orders/order-transition-service.ts:385-497 | a cancel, timeout or failure answered at once ends the order and frees its number if and only if age, expiry and status allow it, and is otherwise refused with the right code |
| HoldGuarantees.CallHasItsEffect | src/application/orders/order-transition-service.ts:177-310 | from every reachable state one undisturbed call under an unused key has exactly that effect |
| HoldGuarantees.BuyerCallFrees | src/application/orders/order-transition-service.ts:282-362 | from every reachable state a buyer ends an open hold at once, even while the window is open |
| HoldGuarantees.HashIgnoresOnlyTheInstant | src/application/orders/order-transition-service.ts:177-310 | two operations share a request hash if and only if they differ at most in the instant they were observed at |
| HoldGuarantees.CallUnderAUsedKey | src/application/internal-api/idempotency-engine.ts:142-200 | a call under a used key changes nothing: the same operation is replayed, another one is a conflict |
| HoldGuarantees.ExpiredHoldIsDue | src/application/cron-jobs/order-completion-sweep-job.ts:113-153 | an expired order holds its number if and only if one of the two jobs selects it |
| HoldGuarantees.RecoveryResolves | src/application/cron-jobs/reservation-recovery-job.ts:121-207 | from every reachable state recovery activates a stuck reservation or cancels it and frees its number |
| HoldGuarantees.RecoveryDoesExactly | src/application/cron-jobs/reservation-recovery-job.ts:121-215 | recovery activates an order if and only if its number is enabled, still offered and on a live device, and otherwise cancels it and frees the number |
| HoldGuarantees.ReservedExactlyWhen | src/domain/order-state-machine.ts:218-385 | in a sound state a number is reserved for an order if and only if it is available and the order newly created |
| HoldGuarantees.MatchIsTheHolder | src/domain/sms-matching-otp.ts:68-108 | over a number's rows a match is never ambiguous, is always the number's current order, and repeats only while that order listens; unmatched means nothing was eligible |
| HoldGuarantees.MatchedExactlyWhenAlone | src/domain/sms-matching-otp.ts:68-108 | over any rows at all a match is unmatched, ambiguous or made exactly as none, several or one of them may take the SMS; it is a first one exactly for a waiting order |
| HoldGuarantees.OtpReachesOnlyTheHolder | src/application/sms/sms-ingestion-service.ts:230-388 | a delivery writes one order, the one currently holding the very number the SMS came in on |
| HoldGuarantees.DeliveredExactlyWhen | src/application/sms/sms-ingestion-service.ts:230-388 | an OTP written at once is written if and only if the order waits, or still listens for a repeated one, and then settles exactly that order |
| HoldGuarantees.MatchedExactlyWhenAwaited | src/domain/sms-matching-otp.ts:68-108 | in every reachable state the match finds exactly the order that awaits the SMS in its window |
| HoldGuarantees.AwaitedSmsIsDelivered | src/application/sms/sms-ingestion-service.ts:230-388 | from every reachable state an undisturbed SMS settles the order that awaits it |
| HoldGuarantees.SweepSparesWhatTheMatcherAccepts | src/domain/order-listening-window.ts:110-186 | the expiry sweep refuses at every instant the matcher still accepts |
| HoldGuarantees.TimeoutMeetsMatcherExactlyAtExpiry | src/domain/order-state-machine.ts:294-323 | a waiting order both matches an SMS and may be timed out at exactly one instant, its expiry |
| OrderServices.AloneIsARun | src/application/internal-api/idempotency-engine.ts:142-204 | one command through the engine, undisturbed, is exactly the run of its separate actions |
| OrderServices.BatchFreesItsPage | src/application/cron-jobs/order-timeout-job.ts:71-102 | a batch frees the number of every due order on its page and changes no other order |
| OrderServices.ReservationIsThreeSteps | src/application/orders/reservation-service.ts:267-319 | one reservation transaction equals creating, reserving and activating one after another |
| HoldGuarantees.GuardedWritesLandOnTheRowRead | src/infrastructure/database/order-operations-gateway.ts:202-317 | no update is lost: at any later point of any run a write guarded by a context read earlier goes through if and only if the order has not moved since (an OTP redaction aside) and the number it is to change is still bound as it was |
| OrderServices.OrderStore.ApplyTerminalTransition | src/infrastructure/database/order-operations-gateway.ts:202-271 | the guarded order and number writes compute the specified rows, and report contention exactly when a guard misses |
| OrderServices.OrderStore.ApplyListeningHoldRelease | src/infrastructure/database/order-operations-gateway.ts:273-326 | the guarded completion stamp and number release compute the specified rows, and report contention exactly when a guard misses |
| OrderServices.OrderStore.RunTerminalEffect | src/application/orders/order-transition-service.ts:433-497 | reads, decides and writes as specified; a throw is reported as such |
| OrderServices.OrderStore.RunCompleteEffect | src/application/orders/order-transition-service.ts:313-362 | reads, decides and writes as specified; an already released hold reports its original instant |
| OrderServices.OrderStore.RunCommand | src/application/internal-api/idempotency-engine.ts:142-204 | look-up, effect, insert and rollback leave exactly the rows and records of the specification |
| OrderServices.OrderStore.RunBatch | src/application/cron-jobs/order-completion-sweep-job.ts:113-153 | the loop over a page leaves the specified rows, and from a sound state frees every order on it |
| OrderServices.OrderStore.CommitReservation | src/infrastructure/database/reservation-gateway.ts:289-436 | succeeds if and only if the number is free and the order new, leaves the order waiting on a busy number, and otherwise writes nothing |
| OrderServices.OrderStore.RecoverReservation | src/application/cron-jobs/reservation-recovery-job.ts:121-207 | promotes, releases or leaves alone exactly as decided, reporting a throw when a row has moved on |
| OrderServices.OrderStore.RecoverBatch | src/application/cron-jobs/reservation-recovery-job.ts:83-115 | one transaction over a page; from a sound state it never rolls back, resolves every reservation and touches no other order |
| AvailabilityServices.HeartbeatOffersExactly | src/domain/task-5-2-device-inventory-pricing.ts:306-319 | a heartbeat puts each available or offline number of its device on offer if and only if an offer covers it, takes the others off, and changes no other number |
| AvailabilityServices.HeartbeatKeepsHolds | src/application/heartbeat/record-heartbeat-service.ts:174-219 | a heartbeat changes no held number and keeps every hold |
| AvailabilityServices.LivenessAgreesExceptOnFutureHeartbeats | src/domain/task-5-2-device-inventory-pricing.ts:186-196 | inventory and number release disagree on liveness exactly for a heartbeat later than now |
| AvailabilityServices.AvailabilityRequestDecides | src/application/numbers/agent-number-service.ts:311-391 | an availability request is refused exactly for a held number, and offers a number exactly when it may be offered |
| AvailabilityServices.ReconciledExactlyWhen | src/domain/task-5-2-device-inventory-pricing.ts:306-319 | reconciling leaves disabled disabled and held held, and offers any other number exactly while its device is live, an offer covers it and no order is bound to it |
| AvailabilityServices.StaleMeetsLiveExactlyAtTheTimeout | src/infrastructure/database/offline-sweep-gateway.ts:72-95 | a device is both stale to the sweep and live to inventory exactly when its age equals the timeout |
| AvailabilityServices.SweepDoesExactly | src/infrastructure/database/offline-sweep-gateway.ts:72-139 | a swept page takes its online devices offline with exactly their available numbers, and changes nothing else |
| AvailabilityServices.OnlineIsLiveOrStale | src/application/cron-jobs/offline-sweep-job.ts:58-104 | the devices stale to the sweep are exactly the online ones that are no longer live to inventory, or just as old as the timeout |
| AvailabilityServices.SweepKeepsHolds | src/application/cron-jobs/offline-sweep-job.ts:58-104 | the offline sweep changes no held number and keeps every hold |
| AvailabilityServices.Inventory.ReconcileIdleNumbers | src/application/heartbeat/record-heartbeat-service.ts:174-219 | every idle number of the device gets its reconciled status, all others stay, and the recovered ones are listed once each |
| AvailabilityServices.Inventory.RecordHeartbeat | src/application/heartbeat/record-heartbeat-service.ts:93-166 | refused exactly for a missing or disabled device; otherwise updates the device and its idle numbers only |
| AvailabilityServices.Inventory.SweepBatch | src/application/cron-jobs/offline-sweep-job.ts:58-104 | takes every still-online device of its page offline together with its available numbers, and nothing else |
| NumberServices.NumberTable.DisableNumber | src/application/numbers/number-management-service.ts:205-254 | refused exactly for a held number; a number taken between read and write keeps what it was taken for |
| NumberServices.NumberTable.ReEnableNumber | src/application/numbers/number-management-service.ts:262-309 | only a disabled number comes back, offline, and never over a concurrent change |
| NumberServices.NumberTable.MoveNumberToDevice | src/application/numbers/number-management-service.ts:317-376 | an idle number moves to a known device with its status unchanged, and never over a concurrent change |
| NumberServices.NumberTable.SetAvailability | src/application/numbers/agent-number-service.ts:311-408 | a device's request for its own number writes the decided status, and is lost whole when the number was taken meanwhile |
| NumberServices.DisableDoesExactly | src/application/numbers/number-management-service.ts:205-254 | the disable command of the composed machine, with whatever another worker does between read and write, goes through exactly as the method does |
| NumberServices.ReEnableDoesExactly | src/application/numbers/number-management-service.ts:262-309 | the same of the re-enable command |
| NumberServices.MoveDoesExactly | src/application/numbers/number-management-service.ts:317-376 | the same of a move |
| NumberServices.DeleteDoesExactly | src/application/numbers/number-management-service.ts:378-397 | a deletion goes through exactly for a number that was idle and that no order names by then |
| NumberServices.HeartbeatDoesExactly | src/application/heartbeat/record-heartbeat-service.ts:174-230 | the reconciliation of one number in the composed machine goes through exactly for an available or offline number that kept its status |
| NumberServices.AvailabilityDoesExactly | src/application/numbers/agent-number-service.ts:311-408 | a device's request in the composed machine writes what the method writes |
| NumberServices.OneActionDoesExactly | src/infrastructure/database/offline-sweep-gateway.ts:96-124 | in the composed machine the offline sweep takes available numbers only, and an administrator's disable idle ones only |
| Idempotency.KeyIsNormalisedOnce | src/application/internal-api/idempotency-engine.ts:145-149 | trimming a usable key again changes nothing, and a blank key is never usable |
| Idempotency.UsableKeyIsKept | src/application/internal-api/idempotency-engine.ts:142-150 | every key of at most 255 code units is kept as it is, whatever white space surrounds it, so distinct keys stay distinct; a longer one is refused |
| Idempotency.StepRefines | src/application/internal-api/idempotency-engine.ts:163-197 | every step of an attempt either leaves the table alone or performs one whole request indivisibly and reports its outcome |
| Idempotency.RunRefines | src/application/internal-api/idempotency-engine.ts:142-234 | any interleaving equals its requests performed one after another in some order, outcomes included |
| Idempotency.FirstWriterWins | src/application/internal-api/idempotency-engine.ts:163-197 | records are never replaced, and exactly one effect executes for every key that gained its record |
| Idempotency.AtMostOneEffectPerKey | src/application/internal-api/idempotency-engine.ts:142-204 | in any run without deletions at most one effect per key commits |
| Idempotency.EveryAnswerAgrees | src/domain/task-5-3/idempotency.ts:17-44 | an equal hash gets the stored response, a different one a conflict, and nobody is told that a replay is unavailable |
| Idempotency.DeletionMakesAReplayUnavailable | src/application/internal-api/idempotency-engine.ts:214-234 | deleting a record between a lost race and its replay is a way to reach the replay-unavailable error |
| Idempotency.Engine.RunIdempotent | src/application/internal-api/idempotency-engine.ts:142-204 | with any rivals completing in between, the call has the effect and outcome of one atomic request after them |
| Idempotency.Engine.ReplayAfterConflict | src/application/internal-api/idempotency-engine.ts:214-234 | answers from the record if it is there and reports its absence otherwise |
| JobKeys.JobOperationKeysNeverCollide | src/domain/task-16-1/cron-jobs.ts:85-93 | two job operation keys are equal if and only if job and item are |
| BooksInvariant.MoveFreeEarning | src/application/ledger/earning-lifecycle-service.ts:149-176 | a hold release or reversal that wins its update appends a fresh event and keeps the books in agreement |
| BooksInvariant.LocksWonExactlyWhenAvailable | src/application/payouts/payout-request-service.ts:186-200 | a request wins all its locks if and only if every selected earning is available, and then moves exactly those |
| BooksInvariant.UncheckedMoveWins | src/application/payouts/payout-review-service.ts:279-288 | while a payout keeps its earnings requested, none of the updates whose result is ignored can miss |
| BooksInvariant.RequestCommitsExactlyWhenAvailable | src/application/payouts/payout-request-service.ts:186-224 | a request commits if and only if its earnings are still available; the unique index never fires and a lost lock leaves no trace |
| BooksInvariant.RequestKeeps | src/application/payouts/payout-request-service.ts:184-224 | a committed request keeps every part of the books invariant |
| BooksInvariant.ReviewSettles | src/application/payouts/payout-review-service.ts:251-306 | a settling or cancelling review moves exactly its own earnings and appends one fresh event for exactly their sum |
| BooksInvariant.ReviewKeeps | src/application/payouts/payout-review-service.ts:251-345 | every committed review keeps every part of the books invariant |
| BooksInvariant.SuccessKeeps | src/domain/task-5-6/earning.ts:73-128 | the first success of an order creates one pending earning and one fresh event, and keeps the books in agreement |
| BooksGuarantees.FaultReportedExactly | src/domain/task-5-6/payout.ts:106-115 | the selection scan finds a fault if and only if some item repeats an earlier one or is not available |
| BooksGuarantees.RequestDecidedExactly | src/domain/task-5-6/payout.ts:96-151 | a request goes ahead if and only if its earnings are distinct, available and worth a safe sum of at least the minimum, and then for exactly that sum |
| BooksGuarantees.HoldReleasedExactlyWhen | src/domain/task-5-6/earning.ts:143-182 | a hold is released if and only if the earning is pending, undisputed and its hold has elapsed; each refusal names its cause |
| BooksGuarantees.ReversedExactlyWhen | src/domain/task-5-6/earning.ts:214-255 | an earning is reversed if and only if it is pending or available and a reason is given, out of the bucket it is in |
| BooksGuarantees.ReviewDecidedExactly | src/domain/task-5-6/payout.ts:197-345 | a review command moves a payout if and only if it stands at the step before and the command carries the text it needs, and moves money only on settling or cancelling |
| BooksGuarantees.ReviewRefusedExactly | src/domain/task-5-6/payout.ts:263-345 | each refusal of a review command names its cause |
| BooksGuarantees.SuccessRecordedExactlyWhen | src/domain/task-5-6/earning.ts:73-128 | a success is recorded if and only if the amount is positive and safe and the order has no earning yet |
| BooksGuarantees.EveryRunKeepsBooks | src/application/payouts/payout-review-service.ts:251-345 | the books invariant holds after every interleaving of all services with stale reads, lost updates and crashes |
| BooksGuarantees.LedgerAgreesWithProjection | src/domain/task-5-6/ledger.ts:159-176 | in every reachable state each bucket balance equals the sum of the earnings in its status, and all balances cancel out |
| BooksGuarantees.EveryTransactionIsZeroSum | src/domain/task-5-6/ledger.ts:56-86 | every transaction in the ledger has at least two entries that sum to zero |
| BooksGuarantees.WinnersAppendOnceLosersNothing | src/application/ledger/earning-lifecycle-service.ts:149-171 | a winning transaction appends exactly its one event, a losing one writes nothing |
| BooksGuarantees.EveryEventIsRecordedOnce | src/infrastructure/database/ledger-repository.ts:45-98 | whatever the run, no event key is in the ledger twice |
| BooksGuarantees.ReleaseAloneReleases | src/application/ledger/earning-lifecycle-service.ts:100-176 | from every reachable state an undisturbed release makes a due earning available, with its one event |
| BooksGuarantees.ReversalAloneReverses | src/application/ledger/earning-lifecycle-service.ts:180-241 | from every reachable state an undisturbed reversal with a reason takes an unlocked earning back |
| BooksGuarantees.ReviewAloneIsCarriedOut | src/application/payouts/payout-review-service.ts:199-355 | from every reachable state an undisturbed review the workflow allows moves the payout and exactly its earnings, unless its reference is another payout's |
| BooksGuarantees.AllocatedExactlyOnce | src/application/payouts/payout-request-service.ts:186-224 | an earning is in at most one unreleased allocation, in one exactly while requested or paid, and a payout is worth the sum of its earnings |
| BooksGuarantees.CancelledEarningsAreRequestableAgain | src/application/payouts/payout-review-service.ts:290-298 | after a rejection or failure a new request for any of its earnings commits |
| BooksGuarantees.SettledEarningNeverAllocatedAgain | src/application/payouts/payout-request-service.ts:186-224 | over every run a paid or reversed earning stays so and enters no later payout |
| BooksGuarantees.StepMovesPayoutsAlongEdges | src/domain/task-5-6/payout.ts:197-204 | every step of every service moves a payout along requested, approved, processing, paid, or to rejected or failed, or not at all |
| BooksGuarantees.PaidWasApprovedAndProcessed | src/domain/task-5-6/payout.ts:197-204 | whatever the run, a paid payout has been processed and a processed one approved |
| BooksGuarantees.StepMovesEarningsAlongEdges | src/domain/task-5-6/earning.ts:143-255 | every step of every service moves an earning along its life or not at all |
| BooksServices.BooksStore.UpdateEarningStatus | src/infrastructure/database/earning-projection-repository.ts:103-125 | succeeds exactly when partner and expected status match, and changes that row only |
| BooksServices.BooksStore.AppendTransaction | src/infrastructure/database/ledger-repository.ts:45-98 | appends unless the event key is already in the ledger |
| BooksServices.BooksStore.CommitRelease | src/application/ledger/earning-lifecycle-service.ts:149-171 | the release transaction as specified, skipped as a whole when its update is lost |
| BooksServices.BooksStore.CommitReversal | src/application/ledger/earning-lifecycle-service.ts:212-241 | the reversal transaction as specified, skipped as a whole when its update is lost |
| BooksServices.BooksStore.ReleaseHoldService | src/domain/task-5-6/earning.ts:143-182 | releases exactly when the decision says so, and otherwise changes nothing |
| BooksServices.BooksStore.RunReleaseBatch | src/application/cron-jobs/earning-release-job.ts:64-93 | a batch makes exactly the due earnings of its page available and keeps the books in agreement |
| BooksServices.BooksStore.LockEarnings | src/application/payouts/payout-request-service.ts:190-200 | the lock loop wins if and only if all locks can be won |
| BooksServices.BooksStore.CommitRequest | src/application/payouts/payout-request-service.ts:184-272 | all locks, payout, allocations and event, or nothing at all |
| BooksServices.BooksStore.RequestPayoutService | src/application/payouts/payout-request-service.ts:122-284 | reports the exact reason for a refusal, and undisturbed never loses a lock |
| BooksServices.RequestAloneIsGranted | src/application/payouts/payout-request-service.ts:122-284 | from every reachable state an undisturbed request the decision grants creates one payout for the sum and locks exactly its earnings |
| BooksServices.DueIsWhatMayBeReleased | src/application/cron-jobs/earning-release-job.ts:64-93 | the release job selects exactly what the release decision lets go |
| BooksServices.BooksStore.MoveEarnings | src/application/payouts/payout-review-service.ts:279-288 | the unchecked loop moves the allocated earnings as specified |
| BooksServices.BooksStore.CommitReview | src/application/payouts/payout-review-service.ts:251-345 | conflict, duplicate reference or the specified new state, nothing in between |
| BooksServices.BooksStore.ReviewService | src/application/payouts/payout-review-service.ts:199-355 | answers each command as decided, repeats without effect, and keeps the books invariant |
| Paging.Page | src/application/cron-jobs/ports.ts:216-228 | at most the limit, ascending, beyond the cursor and from the eligible ids only |
| Paging.PageSkipsNothing | src/application/cron-jobs/job-cursor.ts:1-33 | a page contains every eligible id it has reached |
| Paging.PagesJoin | src/application/cron-jobs/job-cursor.ts:1-33 | a full page and the page behind its last id are one longer page |
| JobLease.AcquiredExactlyWhenAllowed | src/domain/task-16-1/cron-jobs.ts:53-58 | the acquire statement succeeds exactly when the takeover decision allows it, and keeps the cursor |
| JobLease.FormerOwnerIsPowerless | src/application/cron/ports.ts:74-96 | a former owner neither renews nor releases its successor's lease |
| JobLease.RenewableExactlyWhileNobodyElseMayTakeOver | src/application/cron/ports.ts:74-96 | at every instant a held lease can be either renewed by its owner or taken over by others, and one given back can be taken at once |
| JobLease.LeaseRow.TryAcquire | src/infrastructure/database/job-lease-repository.ts:54-79 | inserts, takes over an expired or own lease with its cursor, or leaves the row alone |
| JobLease.LeaseRow.TryRenew | src/infrastructure/database/job-lease-repository.ts:81-102 | writes expiry and cursor exactly while the caller owns an unexpired lease |
| JobLease.LeaseRow.Expire | src/infrastructure/database/job-lease-repository.ts:104-115 | expires the lease exactly when the caller still owns it |
| SweepCoverage.EveryRunIsSafe | src/application/cron/ports.ts:74-96 | over every run with crashes, takeovers and overlapping attempts at most one worker is within its lease, and an item's effect is applied once if it is recorded and never otherwise |
| SweepCoverage.OverlappingAttemptsApplyOnce | src/application/internal-api/idempotency-engine.ts:142-235 | of two attempts at one item that both found nothing, the first to commit applies the effect and the other rolls back and replays |
| SweepCoverage.LoneAttemptIsAnswered | src/application/internal-api/idempotency-engine.ts:142-235 | a worker left alone with its next item gets an answer: the item is behind it and, unless the attempt threw, its effect is applied |
| SweepCoverage.SuccessorResumesAtTheCursor | src/application/cron/cron-batch-runner.ts:113-173 | a worker that stops hands its lease on at once, one that crashes does so when it expires, and the next worker resumes from the persisted cursor |
| SweepCoverage.OnlyTheOwnerMovesTheCursor | src/application/cron/cron-batch-runner.ts:149-164 | the persisted cursor changes only when the owner renews, and a lease changes hands only after it expired |
| SweepCoverage.FinishedSweepOwesNothing | src/application/cron/cron-batch-runner.ts:138-173 | when a sweep ends, every item that was eligible throughout has been attempted |
| SweepCoverage.AnsweredIsApplied | src/application/internal-api/idempotency-engine.ts:142-235 | an attempt that did not throw found the item's effect applied or applied it |
| SweepCoverage.SweepAttemptsEveryStandingItem | src/application/cron/cron-batch-runner.ts:113-173 | from the beginning of any sweep, the very first included, to its end every item that stays eligible is attempted, and unless an attempt threw its effect is applied exactly once |
| CronRunner.LimitIs | src/application/cron/cron-batch-runner.ts:139-146 | at least one batch may run, and otherwise the configured maximum |
| CronRunner.Runner.Drain | src/application/cron/cron-batch-runner.ts:138-173 | the bounded loop reports batches, items and a lost lease truthfully, and leaves the row as its last renewal or, that failing, as the others left it |
| CronRunner.KeptLeaseHoldsTheProgress | src/application/cron/cron-batch-runner.ts:149-164 | a kept lease holds exactly the progress made, a lost one what the others wrote |
| CronRunner.RunWorksThroughThePages | src/application/cron/cron-batch-runner.ts:138-173 | over a fixed set the batches in a row are one page of as many ids as they could take, nothing skipped or taken twice; the report counts them, drained means all, and a kept lease says where the run stopped |
| CronRunner.StaleRunLeavesItsSuccessorAlone | src/application/cron/cron-batch-runner.ts:125-164 | a worker whose lease another holds reports it lost and leaves that row untouched, renewal and release included |
| CronRunner.Runner.Run | src/application/cron/cron-batch-runner.ts:113-136 | runs if and only if the lease may be taken, resumes from its cursor, and in the end, after a throw too, releases it only while still owner |
| RetentionWalk.BatchProgresses | src/application/cron-jobs/retention-redaction-job.ts:98-137 | every batch has fewer passes left, or as many passes and fewer rows |
| RetentionWalk.SweepDisposesExactlyWhatIsAhead | src/application/cron-jobs/retention-redaction-job.ts:98-192 | on fixed data a sweep ends, visits the passes in order, and disposes of exactly the due records ahead of its cursor, each once |
| RetentionWalk.FreshSweepDisposesOfEverything | src/application/cron-jobs/retention-redaction-job.ts:159-172 | from a null or unrecognised cursor every due record is disposed of |
| RetentionWalk.RetentionJob.RunOneBatch | src/application/cron-jobs/retention-redaction-job.ts:98-137 | disposes of one page and moves the cursor as specified |
| RetentionWalk.RetentionJob.DrainAll | src/application/cron-jobs/retention-redaction-job.ts:98-192 | repeated batches do what the specified sweep does |
| Binary64.RndIsNearest | src/domain/task-5-2-device-inventory-pricing.ts:378-384 | rounding picks a nearest representable number |
| Binary64.RndIsRepresentable | src/domain/task-5-2-device-inventory-pricing.ts:378-384 | what rounding picks is representable |
| Binary64.SafetyCheckIsExact | src/domain/task-5-2-device-inventory-pricing.ts:85-89 | checking a rounded integer result for safety is exact: a safe result is the true one, an unsafe one never looks safe |
| Binary64.CeilOfRoundedQuotient | src/domain/task-5-2-device-inventory-pricing.ts:378-384 | for safe integers the ceiling of the rounded quotient is the exact integer ceiling |
| Binary64.CeilGoesWrongBeyondSafeIntegers | src/domain/task-5-2-device-inventory-pricing.ts:378-384 | one past 2^53 the ceiling of the rounded quotient is wrong |
| Pricing.PricingIsExact | src/domain/task-5-2-device-inventory-pricing.ts:386-406 | every price equals the exact integer formula, and is refused exactly when a guard fails or an exact intermediate value is unsafe |
| Pricing.AcceptedPriceIs | src/domain/task-5-2-device-inventory-pricing.ts:386-406 | an accepted price is the least multiple of the rounding unit that covers base price, fixed fee and the markup rounded up |
| Pricing.OutOfGuardrailExactlyWhen | src/domain/task-5-2-device-inventory-pricing.ts:386-394 | a defective configuration prices nothing; under any other a base price is out of bounds if and only if it is no whole number within them |
| Pricing.AcceptedPriceIsSound | src/domain/task-5-2-device-inventory-pricing.ts:386-406 | an accepted price is a multiple of the unit, at least the subtotal and less than a unit above it, with a margin of at least fee plus markup |
| Pricing.PriceIsMonotone | src/domain/task-5-2-device-inventory-pricing.ts:386-406 | a higher base price never gets a lower retail price |
| Catalog.PointLookupAgreesWithListLookup | src/domain/task-5-2-device-inventory-pricing.ts:480-512 | looking one dimension up agrees with searching the served list, the undeclared fallback included |
| Catalog.FindsExactlyTheEnabled | src/domain/task-5-2-device-inventory-pricing.ts:480-512 | the list search finds an enabled dimension of a triple if and only if there is one |
| Catalog.ResolvedPricingValidExactlyWhenBoundsInOrder | src/domain/task-5-2-device-inventory-pricing.ts:522-538 | a declared dimension prices validly if and only if its resolved bounds are in order |
| Catalog.HalfOverrideCanInvertTheGuardrail | src/domain/task-5-2-device-inventory-pricing.ts:714-720 | a declaration that overrides one bound can make every base price unacceptable |
| Catalog.QuoteVersionIsSound | src/application/orders/reservation-service.ts:209-232 | from a declared catalog onward a reservation that passes the version check uses the very pricing of its quote |
| Catalog.UndeclaredQuoteHonouredExactlyWhenNothingIsOverridden | src/domain/task-5-2-device-inventory-pricing.ts:492-503 | a quote from an undeclared catalog is honoured if and only if the row declared since overrides nothing |
| Catalog.FirstDeclarationCanRepriceALiveQuote | src/domain/task-5-2-device-inventory-pricing.ts:497-500 | the first declaration can change a price under an unchanged version |
| CatalogAdmin.ValidateDeclaration | src/domain/task-5-2-device-inventory-pricing.ts:674-754 | collects exactly the violations an input has, and accepts it exactly when it has none |
| CatalogAdmin.UnfaultedIsDeclaredOk | src/domain/task-5-2-device-inventory-pricing.ts:674-754 | an accepted declaration keeps every bound promised of declared rows |
| CatalogAdmin.FaultedExactlyWhen | src/domain/task-5-2-device-inventory-pricing.ts:674-754 | each violation is found if and only if the written-out rule for its field is broken |
| CatalogAdmin.EveryGoodRowCanBeDeclared | src/domain/task-5-2-device-inventory-pricing.ts:674-754 | every row that keeps the rules can be declared exactly as it is |
| CatalogAdmin.CatalogTable.DeclareDimension | src/application/admin/admin-catalog-dimension-service.ts:149-197 | inserts a valid row exactly when its triple is new |
| CatalogAdmin.CatalogTable.ToggleDimension | src/infrastructure/database/admin-catalog-dimension-gateway.ts:139-164 | flips one row's enabled flag and nothing else |
| Selection.SelectsTheLeastEligible | src/domain/task-5-2-device-inventory-pricing.ts:859-871 | nothing is selected exactly when nothing is eligible; otherwise the eligible candidate with the least id |
| Selection.SelectsWhatIsFitToSell | src/domain/task-5-2-device-inventory-pricing.ts:835-871 | what is selected is fit to be sold in every respect, and whatever is fit is passed over only for a smaller id |
| Selection.SelectedNumberCanBeReserved | src/application/orders/reservation-service.ts:233-320 | the number a reservation selects under its locks can be reserved |
| Selection.SelectEligibleInventory | src/domain/task-5-2-device-inventory-pricing.ts:859-871 | the filter loop and the sort compute that selection |
| Selection.SelectionIgnoresOrder | src/infrastructure/database/reservation-gateway.ts:153-176 | the selection depends neither on row order nor on locking only part of the candidates |
| Selection.ReservationHonoursItsQuote | src/application/offers/inventory-query-service.ts:93-139 | a reservation is refused if and only if its dimension was withdrawn or a configuration published since, and otherwise takes the quoted number at the quoted price |
| OtpScan.AsciiDigitsAre | src/domain/sms-matching-otp.ts:364-399 | the ASCII digits are the characters 0 to 9 |
| OtpScan.ContiguousScanFindsExactlyStandingRuns | src/domain/sms-matching-otp.ts:364-399 | for contiguous codes the candidates are exactly the digit runs of the right length no decimal digit borders, in order |
| OtpScan.EveryCandidateIsSound | src/domain/sms-matching-otp.ts:364-399 | every candidate stands alone, overlaps no other match and normalises to exactly the service's digits |
| OtpScan.ReportedExactlyWhenAlone | src/domain/sms-matching-otp.ts:364-399 | a match of the scan is reported if and only if no digit borders it and, when grouped, no separator with a further digit does |
| OtpScan.RunNotAfterASeparatorIsReported | src/domain/sms-matching-otp.ts:344-399 | a standing run without a separator in front is always reported |
| OtpGroups.GroupedScanMissesAStandingRun | src/domain/sms-matching-otp.ts:344-399 | `123-456789` holds an intact run that the grouped scan does not report |
| OtpGroups.RunMissedExactlyWhenTakenByAPair | src/domain/sms-matching-otp.ts:344-399 | for the 3-3 form a standing run is missed if and only if a hyphen follows a block of digits that, less three if it lost them in the same way, leaves three or more over six |
| OtpGroups.RunMissedAfterAFirstBlock | src/domain/sms-matching-otp.ts:344-399 | after a block with no hyphen in front, that is when a hyphen joins the run to it and its length leaves three or more over six |
| OtpGroups.LonePairIsReported | src/domain/sms-matching-otp.ts:364-399 | two groups of three that nothing continues are always reported, joined |
| OtpScan.IntactCodeCandidates | src/domain/sms-matching-otp.ts:364-399 | the loop over the matches collects exactly the specified candidates |
| OtpParsing.FindWholeWord | src/domain/sms-matching-otp.ts:318-329 | the search loop finds a keyword if and only if it occurs as a whole word, overlapping occurrences included |
| OtpParsing.HasKeyword | src/domain/sms-matching-otp.ts:313-331 | true if and only if some non-empty keyword occurs as a whole word |
| OtpParsing.WholeWordExactlyWhen | src/domain/sms-matching-otp.ts:318-329 | a keyword is a whole word if and only if the text can be cut around it with no word character touching it |
| OtpParsing.MentionedExactlyWhen | src/domain/sms-matching-otp.ts:237-247 | a marker is mentioned if and only if it is non-empty and somewhere in the sender's name |
| OtpParsing.DecoyExactlyWhen | src/domain/sms-matching-otp.ts:401-436 | a prefix labels a decoy if and only if it ends in a label that starts a word, white space and at most one mark |
| OtpParsing.CapitalsFold | src/domain/sms-matching-otp.ts:401-436 | capital letters fold to small ones and everything else stays |
| OtpParsing.PrefixIsTheLast24 | src/domain/sms-matching-otp.ts:401-436 | only the 24 code units before a candidate are looked at |
| OtpParsing.ForeignExactlyWhenSomeoneElses | src/domain/sms-matching-otp.ts:237-247 | a marker is foreign if and only if it is somebody else's and not the service's own |
| OtpParsing.MatchedCodeHasTheRightLength | src/domain/sms-matching-otp.ts:401-436 | a delivered code has exactly the service's number of ASCII digits |
| OtpParsing.ContiguousServiceDeliversItsOnlyRun | src/domain/sms-matching-otp.ts:401-436 | a code is delivered if and only if sender and keyword pass and the body holds a single standing run that no decoy label precedes |
| OtpParsing.Parse | src/domain/sms-matching-otp.ts:401-436 | the rules run in order compute the specified result |
| OtpParsing.RegistryShapesAreValid | src/domain/sms-matching-otp.ts:175-197 | all registered services have shapes whose groups hold as many digits as the contiguous form |
| IpText.Ipv4Exactly | src/application/http/client-ip.ts:29-40 | a text denotes an IPv4 address if and only if it is four octets joined by dots; the value is theirs and below 2^32 |
| IpText.NumeralIsOctetExactlyUpTo255 | src/application/http/client-ip.ts:29-40 | a decimal numeral is an octet of its value if and only if it is at most 255 |
| IpText.HexDigitReadsBack | src/application/http/client-ip.ts:76-85 | hexadecimal digits of either case are read as their values |
| IpText.ReadIpv4 | src/application/http/client-ip.ts:29-40 | the loop over the parts computes the specified value |
| IpText.EveryTextualFormParses | src/application/http/client-ip.ts:42-86 | every full or compressed text of eight hextets parses to its 128-bit value |
| IpText.EveryEmbeddedFormParses | src/application/http/client-ip.ts:46-57 | every full or compressed text with a dotted-quad tail parses to the address with its hextets above and the quad in the low 32 bits |
| IpText.CompressedAddressIs | src/application/http/client-ip.ts:64-85 | `::` stands for zeros: the groups before it lead the address and those after it trail it |
| IpText.EmbeddedCompressedAddressIs | src/application/http/client-ip.ts:46-74 | the same in the six groups before a dotted quad, whose four octets are the low 32 bits |
| IpText.OnlyTextualFormsParse | src/application/http/client-ip.ts:42-86 | whatever parses is one of these texts, with or without a quad, parses to its address and is below 2^128 |
| IpText.TwoDoublesAreRefused | src/application/http/client-ip.ts:42-70 | any input with two `::` is refused, overlapping ones included |
| IpText.WrongCountIsRefused | src/application/http/client-ip.ts:60-64 | without `::` any number of hextets other than eight is refused |
| IpText.WrongCompressedCountIsRefused | src/application/http/client-ip.ts:64-74 | with `::` more than seven hextets are refused |
| IpText.WrongEmbeddedCountIsRefused | src/application/http/client-ip.ts:46-74 | before a dotted quad any number of hextets other than six is refused, and more than five around `::` |
| IpText.ReadHextets | src/application/http/client-ip.ts:59-85 | the split, count and group loop compute the specified value |
| IpText.ReadIpv6 | src/application/http/client-ip.ts:42-86 | the whole parser computes the specified value |
| ClientIp.ParsedIpFits | src/application/http/client-ip.ts:88-96 | a parsed address never exceeds the width of its version |
| ClientIp.Ipv4IsRead | src/application/http/client-ip.ts:88-96 | every dotted quad is read as its IPv4 address, whatever white space surrounds it |
| ClientIp.EveryIpv6TextIsRead | src/application/http/client-ip.ts:88-96 | every full or compressed IPv6 text is read as its address, whatever white space surrounds it |
| ClientIp.EveryEmbeddedIpv6TextIsRead | src/application/http/client-ip.ts:88-96 | so is every IPv6 text with a dotted-quad tail |
| ClientIp.ProxyIsRead | src/application/http/client-ip.ts:98-111 | a configured proxy without a slash is one address, and before the first slash stands the address of a prefix |
| ClientIp.PrefixMatchesExactlyOnLeadingBits | src/application/http/client-ip.ts:98-111 | an address matches a prefix if and only if versions and leading bits agree |
| ClientIp.OnlyPrefixesInRangeMatch | src/application/http/client-ip.ts:98-111 | a prefix that is no whole number from 0 to 32 or 128, and a proxy that cannot be read, match nothing |
| ClientIp.FullPrefixIsTheHost | src/application/http/client-ip.ts:98-111 | a full-length prefix matches exactly the address itself |
| ClientIp.ClientIsTheRightmostGenuineHop | src/application/http/client-ip.ts:142-152 | the client is the rightmost readable untrusted hop, and unknown if and only if there is none |
| ClientIp.PrependedTextNeverChangesAKnownAnswer | src/application/http/client-ip.ts:122-153 | text prepended to the forwarding header never changes a known client, and is looked at only when there is none |
| ClientIp.GenuinePeerIsTheClient | src/application/http/client-ip.ts:122-153 | a genuine direct peer is the client, whatever was forwarded |
| ClientIp.GenuineLastHopIsTheClient | src/application/http/client-ip.ts:122-153 | otherwise a genuine last hop of the header is |
| ClientIp.Walk | src/application/http/client-ip.ts:142-152 | the loop from the right computes that hop |
| ClientIp.ResolveClientIp | src/application/http/client-ip.ts:122-153 | header splitting, trimming and the walk compute the specified answer |

## Left out

- Torn reads: an order is read together with its number and device in one action, although the database may run two statements.
- Selection.SelectEligibleInventory: sorts a value rather than the program's local array in place; no other code can observe that array.
- Skipped locks: `FOR UPDATE SKIP LOCKED` may leave out a row that another transaction has locked; coverage is stated for pages that list every eligible row.
- SweepCoverage.EveryRunIsSafe: an item's effect is a count under its constant key; what the jobs' effects do to orders and money is proved of the services themselves.
- RetentionWalk.SweepDisposesExactlyWhatIsAhead: the data is fixed during the sweep; the five disposals are removals from a set of due ids, and window lengths are not part of this model.
- Admin disable is one action in `Marketplace`, so the hold guarantees assume that it lands on what it read; `UnguardedDisable` takes it apart.
- One success creates both the order's success and its earning in one transaction; the two are modelled separately, joined by the unique order id.
- Idempotency expiry stamps: nothing in the repository deletes records, so retention windows have no effect on the model.
- Request hashing, encryption, actor hashes, audit events and state-history rows.
- Database constraints that no guarded write relies on, 32-bit column limits on amounts and the active-canonical-number slot.
- Payout permissions, destinations, snapshots, payment instants, input-format checks and length limits; references and reasons are passed trimmed.
- Pricing.PricingIsExact: NaN and the infinities as base price are left out; configuration values are integers.
- OtpParsing.Parse: lower-casing and the Unicode digit, word and space classes are parameters; the decoy label rule is the pattern written out as a predicate. The third-party brands are a parameter.
- CatalogAdmin.ValidateDeclaration: trimming and upper-casing come before it and are not part of this model.
- ClientIp.ResolveClientIp: the conversion of the text after a slash to a number is a parameter; headers arrive as optional texts.
- Routes, envelopes, pages, sessions, rate limits, member and partner administration and health checks.
