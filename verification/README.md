# Shipit: verified model of the audit queue, the payments and the limiters

A Dafny model of the parts of Shipit that must not go wrong under concurrency, crashes and
retries, with proofs of what they keep. `dafny verify dfyconfig.toml` checks all of it.

| file | models |
|---|---|
| `Histories.dfy` | runs: a state is reachable when some history leads to it |
| `AuditQueue.dfy`, `AuditQueueSafety.dfy`, `AuditQueueRuns.dfy`, `AuditJobRepository.dfy` | the durable audit queue |
| `Spool.dfy`, `Staging.dfy`, `SweepAge.dfy`, `Intake.dfy` | the upload spool, intake, crashes, workers, reapers and sweeps interleaved with the queue, and the age bound of the sweep |
| `Payments.dfy`, `PaymentRepository.dfy` | payment rows, the atomic Pro grant, key delivery |
| `FixpackJobs.dfy`, `FixpackRuns.dfy`, `FixpackJobRepository.dfy` | Fix Pack jobs, their funding keys, the single processor and its summary |
| `RateLimiter.dfy`, `RedisRateLimiter.dfy` | the two rate limiters and their agreement |
| `Relocation.dfy`, `ImportClosure.dfy` | the source rewriter and the import closure of the offline package |
| `ModelOverlap.dfy`, `AliasHistory.dfy`, `FundingKey.dfy` | the location matcher, the alias deduplicator, the funding key |

## How it is modelled

- One SQL statement is one atomic step. `Rows`, `Execute` and `Apply` give the table after a
  statement that may or may not match; a `History` is any finite sequence of steps, in any
  order, by any number of workers, so a lemma about every history is a lemma about every
  interleaving. Each step carries the time since the previous one: clocks never go back.
- The three database repositories and the two limiters are classes whose methods update their
  state in place. Each records the steps it takes in a ghost history, and its `Valid()` says that
  the state is what that history makes of an empty one; so what is proved of all histories holds
  of every object. In `FixpackJobRepository` the state is the table, the advisory lock and the
  clock, and `Yield` runs any steps of the other transactions between two statements of a call.
- The methods state their answers and the rows they leave column by column, in terms of the rows
  before the call; the step functions of the histories appear beside that, never instead of it.
- No proof uses Dafny's automatic induction: every lemma carries `{:induction false}`.
- A statement refused by a unique index, a foreign key or the primary key raises and changes
  nothing. `grant_pro_account` is one step: the rows it reads are locked, and a row that
  appears behind its back trips a unique index and rolls it back.
- Ids the database mints are parameters; hashes are taken as free of collisions where stated.
- `SKIP LOCKED` is a parameter: the rows other claims hold locked.
- Seconds are reals in the in-memory limiter and whole milliseconds in Redis. Redis drops a key
  once its window has elapsed.

## What turned out to depend on a condition

- The age-based spool sweep can delete the archive of a queued job (`ShortSweepLosesPayload`).
  It keeps every payload when its bound is at least the age of the oldest live upload, and among
  bounds on that age no smaller one will do (`SweepAge.SweepBoundIff`).
- The two limiters are called interchangeable. They give the same answers to a sequence of calls
  exactly when no call splits them: a call without an open window and with a limit below one, or
  a call in an open window whose limit is above what the window has accepted but not above the
  calls it has seen (`AgreeIff`). So they agree under one positive limit, and when limits are not
  raised inside a window (`InterchangeableIffLimitPositive`, `LimitersAgree`), and they disagree
  when a limit is raised after enough rejections (`RaisedLimitDisagrees`).
- A charge reference shares its funding encoding with another one exactly when it holds a
  surrogate pair in either spelling (`FundingKey.EncodingSharedIff`); texts in which no lone
  high surrogate is followed by a lone low one are told apart (`FundingKey.EncodingInjective`).
- `mark_status` has no status guard and does overwrite a finished job: two processors at once turn
  a delivered job into a failed one (`TwoProcessorsOverwrite`). Finished jobs stay finished because
  of the advisory lock (`TerminalJobsNeverChange`).
- The greedy matcher of `compare_models` counts at least half of the pairs that are possible
  (`Overlap`), and for every n it counts n of 2n on some lists (`GreedyCanLoseHalf`).

## Model

| member | source | states |
|---|---|---|
| AuditQueueSafety.ReachableOk | app/db.py:3282-3303 | in every reachable queue: queued rows have budget left and neither holder nor lease, running rows have both and one to max attempts, an audit link exactly when succeeded, a completion time exactly when terminal, never 'claimed', and one live row per idempotency key, although the claim never looks at the budget |
| AuditQueueSafety.WrittenOk | app/db.py:3409-3447 | every statement that writes a row finds it live and leaves it well formed; only a claim adds an attempt and only a release takes one |
| AuditQueueRuns.AttemptsAreClaimsMinusReleases | app/db.py:3480-3490 | the attempts column is the number of claims less the number of early releases in the run, so its floor at zero never bites |
| AuditQueueRuns.ClaimsAreBounded | app/db.py:3275-3303 | a job is claimed at most max_attempts times plus once per early release |
| AuditQueueRuns.TerminalRowsNeverChange | app/db.py:3339-3371 | over any continuation of a run a terminal row stays exactly as it was |
| AuditQueueRuns.SucceedsAtMostOnce | app/db.py:3339-3371 | at most one finalize_succeeded of a job ever returns True, and exactly then the job has an audit link |
| AuditQueueRuns.Fencing | app/db.py:3306-3337 | once a job has left a worker's lease, every renew, finalize or release by that worker changes nothing until it claims the job again |
| AuditQueueRuns.LeaseProtects | app/db.py:3525-3556 | until a lease runs out no other worker and no reaper can touch the row |
| AuditQueueRuns.StateChangesAreBounded | app/db.py:3256-3557 | in every run a job changes state at most 2 * max_attempts + 1 times plus twice per early release |
| AuditQueueRuns.StateChangesBoundIsReached | app/db.py:3256-3447 | and for every budget some run uses them all |
| AuditQueueRuns.WritesLowerRank | app/db.py:3139-3254 | every write but a renewal lowers the rank of the row, an early release raising it by one |
| AuditQueueRuns.ClaimsAreSpaced | app/db.py:3421-3427 | with only transient failures the n-th claim comes at least backoff * (2^n - 2) after the first |
| AuditQueueRuns.LeasedJobDiesIff | app/db.py:3373-3557 | a running job becomes a dead letter exactly when its holder reports a permanent failure, or fails it or lets the lease lapse at the last attempt |
| AuditQueueRuns.UnleasedJobDiesIff | app/db.py:3178-3254 | a created or queued job becomes one exactly when its upload was given up or reaped as stuck |
| AuditQueueRuns.DeadLettersAreEarned | app/db.py:3497-3557 | in every run no job is written off with attempts left unless it was condemned by its holder or its payload never came |
| AuditJobs.AuditJobRepository.Enqueue | app/db.py:3073-3137 | joins the one unfinished row of the key, changing nothing, or inserts the row as submitted with no attempts and no lease |
| AuditJobs.AuditJobRepository.MarkQueued | app/db.py:3139-3176 | moves exactly a created row to the queue with its payload |
| AuditJobs.AuditJobRepository.AbandonCreated | app/db.py:3178-3212 | dead-letters exactly a created row and frees its key |
| AuditJobs.AuditJobRepository.ReapStuckCreated | app/db.py:3214-3254 | exactly the created rows older than the bound become dead letters, and they are counted |
| AuditJobs.AuditJobRepository.ClaimOne | app/db.py:3256-3304 | leases an oldest due unlocked queued row, counting the attempt, and nothing only if there is none |
| AuditJobs.AuditJobRepository.RenewLease | app/db.py:3306-3337 | True exactly for the holder, whose lease alone moves |
| AuditJobs.AuditJobRepository.FinalizeSucceeded | app/db.py:3339-3371 | True exactly for the holder; sets the audit link for the first time |
| AuditJobs.AuditJobRepository.FinalizeFailed | app/db.py:3373-3447 | True exactly for the holder; a dead letter that keeps its holder exactly when permanent or out of budget, else queued without one after an exponential backoff |
| AuditJobs.AuditJobRepository.ReleaseEarly | app/db.py:3449-3495 | True exactly for the holder; queued again at once with the attempt refunded |
| AuditJobs.AuditJobRepository.ReapExpired | app/db.py:3497-3557 | a lapsed lease of a job with attempts left is queued again at once, one of a job without becomes a dead letter with code lease_expired, no other row changes, and both are counted |
| Spool.SpoolDirectory.StageArchive | app/audit_spool.py:121-167 | the final name changes only to the complete archive; a full spool or a failing open changes nothing, a failing write leaves no temporary file and a failing move leaves it |
| Spool.SpoolDirectory.BytesUsed | app/audit_spool.py:104-118 | the sizes of the listed files that still exist |
| Spool.SizeOfPut | app/audit_spool.py:104-118 | a file of n bytes adds n for each time it is listed |
| Spool.SizeOfAnyOrder | app/audit_spool.py:109-118 | the order of the listing plays no part |
| Spool.SpoolDirectory.CleanupStagedArchive | app/audit_spool.py:188-203 | removes the named archive and nothing else, or nothing when the unlink fails |
| Spool.SpoolDirectory.SweepStaleArchives | app/audit_spool.py:206-241 | removes exactly the final archives older than the bound whose unlink succeeds, and counts them |
| AuditIntake.StageAndQueue | app/main.py:2312-2356 | queued exactly when the row is created and the archive can be staged, with the complete payload; else a dead letter that says why and a free key; an archive staged for a row that had left created goes unless its removal fails |
| AuditIntake.EnqueueAuditJob | app/main.py:2248-2309 | a duplicate joins the live job and restages nothing; a new submission is refused exactly when its archive cannot be staged, and then frees its key; an accepted one is a queued job of its kind, key and budget with its payload complete |
| Staging.ClaimablePayloadsAreStaged | app/main.py:2269-2356 | in every interleaving of requests, partial writes, crashes, workers, reapers and safe sweeps, exactly the jobs submitted with an archive are zip jobs, and a queued or running one names a complete file with exactly its bytes |
| Staging.ReachedOk | app/audit_spool.py:143-167 | the same for every job and every unfinished request at once |
| Staging.SweepKeepsOkIff | app/audit_spool.py:206-241 | one sweep keeps the payloads exactly when it reaches no archive still needed |
| SweepAge.ReachedAged | app/audit_spool.py:153-166 | in every interleaving, whatever is swept, a job's files are never older than its row |
| SweepAge.YoungLiveIsSafe | app/audit_spool.py:218-222 | a sweep whose bound is at least the age of every live upload reaches no archive still needed |
| SweepAge.BoundedSweepsKeepPayloads | app/audit_spool.py:218-222 | so with such bounds every claimable upload has its complete payload in every interleaving |
| SweepAge.ShortSweepLosesPayload | app/audit_spool.py:226-232 | for every upload and every bound shorter than its wait, a run in which the sweep deletes the payload of a queued job |
| SweepAge.SweepBoundIff | app/audit_spool.py:218-222 | sweeps with bound maxAge keep every payload in all reachable states whose live uploads are at most age old, exactly when age <= maxAge |
| Staging.OrphansOnlyDie | app/db.py:3214-3254 | a created row whose request died can only become a dead letter |
| Staging.GivenUpFreesItsKey | app/main.py:2324-2345 | a request that fails to stage leaves a dead letter and its key takes a new job |
| Staging.LatePromotionCleansUp | app/main.py:2347-2356 | one whose row was reaped meanwhile queues nothing and removes its archive |
| Staging.ReapedOrphanFreesItsKey | app/db.py:3178-3254 | after the age bound the reaper dead-letters it and the same key inserts a new job |
| Payments.ReachableOk | app/db.py:2003-2035 | the unique indexes on charges and provider payment ids hold in every reachable state |
| Payments.OneAccountPerCharge | app/db.py:1917-2035 | over any run a charge creates at most one account and hands out at most one plaintext key |
| Payments.OneAccountPerInvoice | app/db.py:1939-1957 | so does an invoice, whichever charges are confirmed against it |
| Payments.ReplayReturnsSameAccount | app/db.py:1959-1983 | a replay of a granted charge returns the account of the grant and no key, and is refused once refunded |
| Payments.RefundedChargeIsRefused | app/db.py:1980-1983 | a refunded charge is never granted or replayed again, whatever invoice is named |
| Payments.GrantCloses | app/db.py:1988-2033 | a winning grant settles its payment on the new Pro account and adds no other account |
| Payments.RowsOnlyEvolve | app/db.py:2298-2357 | over every interleaving status only moves pending, completed, refunded; account, chat and provider payment id are write-once, and so is the charge from completion on |
| Payments.SecondClaimNeedsRelease | app/db.py:2531-2576 | between two winning key claims on a payment there is a release |
| PaymentTables.PaymentRepository.Examine | app/db.py:1910-1985 | the reads of the transaction settle exactly a first confirmation, replay exactly a credited charge and refuse the rest |
| PaymentTables.SettlesIff | app/db.py:1917-1985 | a charge is settled exactly when it is named with an open Pro invoice of its provider, without another reference, or with none, and no other row carries it |
| PaymentTables.ReplaysIff | app/db.py:1959-1979 | it is replayed exactly when a completed Pro payment carries it for a Pro account and is the invoice named, if any |
| PaymentTables.PaymentRepository.GrantProAccount | app/db.py:1881-2035 | with fresh ids and no fault, granted exactly on a first confirmation, replayed exactly for a credited charge; the payment and the one new Pro account are stated column by column; whatever breaks, both tables are as before |
| PaymentTables.PaymentRepository.MarkCompleted | app/db.py:2249-2313 | refuses exactly a second charge, a second account or a refunded payment, raises exactly on an unknown account or a charge another row carries; the same charge again changes nothing |
| PaymentTables.PaymentRepository.Create | app/db.py:2037-2093 | inserts exactly when no index or key refuses, and otherwise changes nothing |
| PaymentTables.PaymentRepository.CreateAccount | app/db.py:1547-1578 | mints an account of any tier and touches no payment |
| PaymentTables.PaymentRepository.SetProviderPaymentId | app/db.py:2451-2490 | records the provider's id once and for one order only: False exactly for a missing order or one that has an id, an error for an id of another order |
| PaymentTables.PaymentRepository.MarkRefunded | app/db.py:2315-2358 | refunds exactly a completed payment, once |
| PaymentTables.PaymentRepository.MarkCompletedFixpack | app/db.py:2360-2404 | the same gate, never an account, and a retry cannot blank the job link |
| PaymentTables.PaymentRepository.LinkChat | app/db.py:2492-2529 | the first link wins and the answer is the owner |
| PaymentTables.PaymentRepository.ClaimKeyDelivery | app/db.py:2531-2560 | won exactly on a completed payment whose key is not out |
| PaymentTables.PaymentRepository.ReleaseKeyDelivery | app/db.py:2562-2576 | undoes the claim and nothing else |
| FixpackJobs.ReachableOk | app/db.py:955-1061 | in every reachable state paid jobs have attempts left, funding keys and live audits are unique, and the processor's current job is running |
| FixpackRuns.TerminalJobsNeverChange | app/db.py:1199-1228 | delivered, no_fix_needed, blocked and failed are absorbing under one lock holder |
| FixpackRuns.UnguardedWriteOverwrites | app/db.py:1219-1228 | the statement itself spares no finished job |
| FixpackRuns.TwoProcessorsOverwrite | app/db.py:1199-1228 | without the lock two processors, each writing only a job it claimed, turn a delivered job into a failed one, for every age bound of the reaper |
| FixpackRuns.AttemptsAreClaimsMinusRefunds | app/db.py:1161-1197 | attempts are claims less credential refunds |
| FixpackRuns.ClaimsAreBounded | app/main.py:1554-1598 | a job is claimed at most MAX_JOB_ATTEMPTS times plus once per credential refund |
| FixpackRuns.OwnershipLasts | app/db.py:895-942 | a job keeps its audit and funding key for ever |
| FixpackRuns.OneJobPerFundingKey | app/db.py:904-942 | in every run at most one job is ever inserted for a funding key |
| FixpackRuns.RunsRespectRely | app/db.py:981-1061 | what all other writers together may do between two statements of a checkout, in every run |
| FixpackTables.FixpackJobRepository.CreatePaid | app/db.py:895-942 | with any steps of other checkouts and processor runs between its statements: a key that owns a job gets it back even when terminal, nothing else is ever returned for it, joining changes no key, and it gives up only after three different jobs of the audit came to an end during the call |
| FixpackTables.FixpackJobRepository.Yield | app/db.py:907-941 | whatever steps the others take, the table they leave respects what RunsRespectRely says and both indexes |
| FixpackTables.FixpackJobRepository.Round | app/db.py:911-941 | one round without a result met a live job of the audit that has ended since |
| FixpackTables.FixpackJobRepository.ClaimOnePaid | app/db.py:955-998 | leases an oldest paid job, and nothing only if there is none |
| FixpackTables.FixpackJobRepository.ReapStaleRunning | app/db.py:1000-1061 | every lapsed lease is paid again or failed by its attempts, no other row changes, and the counts are the rows that moved |
| FixpackTables.FixpackJobRepository.RecordOutcome | app/main.py:1365-1598 | the current job is running, each outcome writes its status to it, and an outage or rejected credentials end the run |
| FixpackTables.FixpackJobRepository.ProcessPaid | app/main.py:1684-1793 | skipped exactly when another run holds the lock; otherwise, while others go on buying, each number of the summary is the number of processed jobs with that outcome, the reaped ones are the lapsed leases with and without attempts left, everything adds up for any batch, and the numbers are the rows that reached each status |
| FixpackTables.FixpackJobRepository.Drain | app/main.py:1747-1788 | with purchases before and during each job, every outcome is reported under its own heading, only the last job can meet an outage or rejected credentials, and the batch ends early only on these or an empty queue |
| RateLimiting.EvictionIsInvisible | app/ratelimit.py:86-127 | the evicting limiter gives the verdicts and retry times of one that never forgets a window, for every sequence of calls on any keys |
| RateLimiting.CheckLeavesOnlyOpenWindows | app/ratelimit.py:118-127 | after a check only unexpired windows are stored |
| RateLimiting.IntervalAcceptsAtMost | app/ratelimit.py:78-97 | any half-open interval of window length accepts at most 2 * limit - 1 calls of a key |
| RateLimiting.IntervalBoundIsReached | app/ratelimit.py:78-97 | and for every limit and every window length some run lets that many pass |
| RateLimiting.RateLimiter.EvictExpired | app/ratelimit.py:118-127 | keeps exactly the windows that began less than a window ago |
| RateLimiting.RateLimiter.Check | app/ratelimit.py:78-97 | denied exactly in a running window whose budget under the limit in force is used up, with the seconds left and one; charges or opens this key's window and drops elapsed ones |
| RateLimiting.RateLimiter.Peek | app/ratelimit.py:99-116 | denied in the same case, with nothing stored |
| RedisRateLimiting.AgreeIff | app/ratelimit.py:86-97 | both limiters give the same verdicts and retry times to a sequence of checks and peeks exactly when no call finds a limit below one without an open window, or a limit above the accepted calls of its window but not above its calls |
| RedisRateLimiting.LimitersAgree | app/ratelimit.py:175-222 | so they agree on every sequence with positive limits never raised inside a key's window, although only Redis counts rejected calls |
| RedisRateLimiting.InterchangeableIffLimitPositive | app/ratelimit.py:86-97 | with one limit they agree on all sequences exactly when it is at least one |
| RedisRateLimiting.RaisedLimitDisagrees | app/ratelimit.py:134-140 | for any two limits, raising the lower to the higher one after enough rejections separates them |
| RedisRateLimiting.RedisRateLimiter.Check | app/ratelimit.py:175-201 | counts the call, denied or not, in a counter that lives one window from its first call, and denies above the limit; store unavailable and never an allow otherwise, a reply lost after the increment leaving the call counted |
| RedisRateLimiting.RedisRateLimiter.Peek | app/ratelimit.py:203-222 | denies at the limit without counting |
| Relocation.SpliceAll | scripts/build_local_package.py:126-128 | for any disjoint spans, descending splices equal substituting all of them at once in the original |
| Relocation.OutsideBytesSurvive | scripts/build_local_package.py:126-128 | every byte outside the spans is found where the preceding edits shift it to |
| Relocation.OutsideBytesKeepOrder | scripts/build_local_package.py:126-128 | any two of them keep their order |
| Relocation.LengthBalance | scripts/build_local_package.py:126-128 | and there is nothing else: the length changes by what the edits change it by |
| Relocation.ReplacementsArePlaced | scripts/build_local_package.py:126-128 | every replacement stands where the preceding edits shift its span to |
| Relocation.NewlineBalance | scripts/build_local_package.py:105-128 | the newline count changes by what the edits add together, so it is kept exactly when they add none |
| Relocation.NewlinesKept | scripts/build_local_package.py:105-128 | edits whose replacements have the newlines of their spans add none |
| Relocation.Offsets | scripts/build_local_package.py:108-111 | the prefix sums are where the lines start |
| Relocation.OffsetAddressesColumn | scripts/build_local_package.py:123-125 | line and column address the byte the table says |
| Relocation.FlattenSplit | scripts/build_local_package.py:108 | the lines with their ends make up the source |
| Relocation.LinesEndOnly | scripts/build_local_package.py:108 | every line but the last ends in LF, CR or CR LF, none has another terminator, and no CR LF is cut |
| Relocation.SplitStartsLines | scripts/build_local_package.py:108-111 | line k starts right behind the (k - 1)-th terminator of the source |
| Relocation.LineStartIsUnique | scripts/build_local_package.py:108-111 | and nowhere else |
| Relocation.LineCount | scripts/build_local_package.py:108 | there are as many lines as terminators, and one more for a source that ends without |
| Relocation.Relocate | scripts/build_local_package.py:105-128 | the rewritten bytes are the source with every site substituted, each span lying the given columns behind the starts of the two lines it names, counted by terminators |
| ImportClosure.SourceFiles | scripts/build_local_package.py:79-102 | ends on every finite import graph and returns exactly the modules reachable by packages and application imports, a closed set; fails exactly when one of them is outside the boundary, forbidden, missing, rejected or imports an unknown top-level name |
| ImportClosure.ReachableIsLeastClosed | scripts/build_local_package.py:93-101 | that is the least set with the root closed under parents and application imports |
| ModelOverlap.Overlap | scripts/compare_models.py:211-231 | counts a one-to-one pairing of findings in the same file at most three lines apart in which every left finding has the first right one no earlier left finding has, conserves both lists, and is at least half of any such pairing |
| ModelOverlap.GreedyServesFindings | scripts/compare_models.py:211-231 | the greedy pass pairs first come, first served |
| ModelOverlap.MaximalIsHalf | scripts/compare_models.py:215-231 | any maximal matching has at least half the size of any other |
| ModelOverlap.GreedyCanLoseHalf | scripts/compare_models.py:219-231 | for every n there are lists on which the greedy pick counts n pairs where 2n are possible |
| AliasHistory.WithPriorEvidence | app/audit_history.py:27-42 | the new findings unchanged, then in order exactly the prior advisories that share no nonempty id or alias with an earlier finding of their package |
| AliasHistory.AppendedIffNoEarlierAlias | app/audit_history.py:34-41 | a prior advisory is carried over exactly when it is an alias of no earlier finding |
| AliasHistory.AppendedAreNoAliases | app/audit_history.py:34-41 | no advisory carried over is an alias of an earlier finding, carried over or new |
| AliasHistory.DroppedIsLinkedToRetained | app/audit_history.py:37-41 | every dropped advisory is linked to a retained one by a finite chain of shared ids |
| FundingKey.EncodingInjective | app/fixpack_funding.py:7-10 | the compact ASCII JSON of two texts without split surrogate pairs determines both |
| FundingKey.PairReadsBack | app/fixpack_funding.py:7-10 | a reader of the JSON grammar reads the provider and the charge back from the encoding |
| FundingKey.PlainEncoding | app/fixpack_funding.py:7-10 | ordinary texts stand in it as they are, between quotes and without white space |
| FundingKey.UnitsOfSupplementary | app/fixpack_funding.py:7-10 | a code point above the basic plane stands as its surrogate pair |
| FundingKey.EncodingSharedIff | app/fixpack_funding.py:7-10 | exactly which references share their encoding with another |
| FundingKey.CompletedForJob | app/db.py:2195-2203 | whatever the order of the rows: the payment that funded the job, or the sole payment of a keyless job, or none |
| FundingKey.FundingPaymentIsUnique | app/db.py:2195-2200 | at most one of a job's payments funded it |
| FundingKey.AdditionalPayerDoesNotFund | app/db.py:2167-2173 | an additional payer is never taken for the one that funded the job |

## Left out

- Deployments without a database, malformed ids and the texts of error messages: the methods answer None or False there.
- Timestamps, payload columns and error texts that no statement of the model reads.
- The connection pool and the isolation of a transaction from its own retries: a status write either takes effect or raises. A commit whose reply is lost would let the processor mark a delivered job failed.
- What scanning, the sandbox, the proof stage and pull requests do: they are outcomes. Best-effort bookkeeping after a status write is taken never to raise, as it is written.
- The advisory lock of the processor is held by the run that took it until the run ends or dies; a lock lost under a live run is not modelled. A run that dies is a step of the histories and of what others do in `Yield`, not a result of `ProcessPaid`.
- AuditIntake.StageAndQueue: one request with nobody in between and all of it at one instant; the interleavings are in `Staging`.
- AuditIntake.EnqueueAuditJob: one request with nobody in between and all of it at one instant; the interleavings are in `Staging`.
- The byte budget of the spool under concurrent uploads: the check and the write are separate steps, so no bound is claimed.
- Temporary files left by a crash or a failing move: the sweep does not match them. A sweep is one step; an archive staged after its listing is one it does not reach.
- Package fields of an advisory that Python cannot hash: the source raises on them.
- Parsing Python: import sites, import sets and their rejections are inputs, as is the check that no application import is left after relocation.
- SHA-256 itself: free of collisions by assumption where the result needs it.
- `grant_fixpack`, `deliver_key_once`, subscriptions and the monitoring queue: callers of the same statements, or a weaker copy of the same lease.
- HTTP routing, rendering, alerts, redaction and the evaluation scripts.
