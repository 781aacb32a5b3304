# Verified model of the distributed job scheduler

The scheduler keeps its jobs in one PostgreSQL table. Schedulers, workers, clients and cron evaluators
change the rows with guarded single-row statements; nothing else coordinates them. This project models
those statements and proves what they guarantee together, for every interleaving.

- `Jobs`, `Traces`: a job row, the statements that act on it, and the *trace* of a row: any sequence of
  statements by anybody, where reports can be late, repeated, reordered or invented, and any number of
  leaders claim and reclaim at once. A failure report is two statements, a read and a guarded update.
- `Leases`, `Accounting`, `Renewal`: theorems about all traces: who may hold a job, whose result counts,
  how grants, failures and reclaims add up, how long a job can live, and how early it can be dead.
  `History` says when each guarded statement is accepted, in terms of the statements before it.
  `StaleReads` says exactly when a failure report's read can be out of date.
- `Store`, `Handlers`: the job store and two request handlers as classes and methods that update the
  table in place, each proved against the row semantics.
- `Cluster`: the whole table. Every run projects, row by row, to a trace, so the trace theorems hold for
  every job; leases and results are also stated directly for runs, and the tenant quota's overshoot is
  bounded. `Overshoot` shows that the bound is reached.
- `Workers`, `Dispatch`: the workers table and one tick of the dispatcher.
- `Backoff`: the retry delay with its int64 conversion, cap, jitter and wrap-around.
- `RequestIds`, `Calendars`, `Cron`, `Evaluator`: recurring schedules, with concurrent evaluators.
- `RateLimit`: the token bucket, its exact window rule, and eviction. `Bursts` shows how much eviction
  can hand out.
- `WorkerTable`: a worker's table of running jobs.
- `Autopsy`: the dead-letter report and what its attempt list counts.

Job times are microseconds of the database clock, which never goes back; retry settings and cron times
are nanoseconds. Identifiers the database generates, the wall clock, random numbers and the result of an
out-of-range float conversion are parameters. Each SQL statement is atomic per row, request ids are
unique.

Where the code and its documentation differ, the model follows the code:

- the documented backoff window fails once `base * 2^n` leaves the int64 range (`DocumentedWindowIff`
  gives the exact condition; with the default base it starts at exponent 33, `DefaultBaseOverflow`);
- renewals require `RUNNING`, but nothing marks a job running, so all renewals are refused
  (`RenewalsRefused`);
- cleanup claims to remove only full buckets but does not look; this is harmless exactly when an idle tick
  refills a whole burst (`EvictionInvisibleIff`), as the default settings do;
- `FOR UPDATE SKIP LOCKED` outside a transaction does not keep two evaluators apart
  (`StaleAdvanceMovesBack`), and `AdvanceMovesBackIff` says when next_run_at moves back; only the unique
  request id prevents double firing (`OneJobPerSlot`);
- a `RUN_ALL` evaluation advances past the due slots after the first ten that have no job yet
  (`CapLeavesGap`);
- draining a worker lasts until its next heartbeat or registration (`DrainedActiveIff`), and claims ignore
  worker capacity: a tick can overfill a worker unless each least loaded one has room for every eligible
  job (`CapacityKeptIff`);
- the worker's capacity check bounds the executions under way only for a capacity of at most one
  (`CapacityBoundsIff`): a job whose lease was reclaimed can be dispatched beside its old execution;
- an autopsy lists reclaims as attempts and hides attempts after the 49th (`AttemptsBelowCap`,
  `AttemptsCapped`).

## Model

| member | source | states |
|---|---|---|
| Leases.RowInvariant | internal/db/jobstore.go:96-295 | in every trace the status, worker, expiry, version and retry columns of a row stay consistent, and the insert columns never change |
| Leases.TerminalForever | internal/db/jobstore.go:277-284 | a succeeded, cancelled or dead-lettered row is never changed again |
| Leases.GrantedOnce | internal/db/jobstore.go:97-118 | each lease version of a job is granted by one statement, to one worker |
| Leases.VersionsGranted | internal/db/jobstore.go:97-118 | every version up to the row's was granted, and the row names the worker of the latest grant |
| Leases.OwnedUntilSurrender | internal/db/jobstore.go:204-256 | a granted lease belongs to its worker until its failure is accepted or the job is reclaimed later than a lease length after the grant and every accepted renewal |
| Leases.LeasesDisjoint | internal/db/jobstore.go:97-118 | between two grants of a job the earlier holder has surrendered, at a time between them, and versions increase |
| Leases.OneResultPerVersion | internal/db/jobstore.go:170-213 | each lease version has at most one accepted result, over late, repeated and reordered reports |
| Leases.NoResultAfterSuccess | internal/db/jobstore.go:170-213 | a job succeeds at most once and accepts nothing after its success |
| Leases.ResultAcceptedIff | internal/db/jobstore.go:176-179 | a result is accepted iff its worker was granted that version and nothing (a result, a reclaim, a cancellation) has ended the lease since, however long it has expired |
| History.UnfinishedIff | internal/db/jobstore.go:277-284 | a job is pending, dispatched or running iff it had no accepted completion, no accepted cancellation and fewer than max(1, max_retries) accepted failures |
| History.CancelAcceptedIff | internal/db/jobstore.go:278-284 | a cancellation is accepted iff it is by the job's tenant and the job is unfinished, leased or not |
| History.ClaimAcceptedIff | internal/db/jobstore.go:105-118 | a claim is accepted iff the job is unfinished, no lease of it is open, and the backoff of its last failure, if no claim came since, has passed |
| History.ReclaimAcceptedIff | internal/db/jobstore.go:247-256 | a reclaim is accepted iff a lease is open and a lease length has passed since its grant and since each of its accepted renewals |
| Leases.ReadNeverStale | internal/db/jobstore.go:215-233 | when a failure update is accepted and its report is issued, the retry count it read is the row's; the row changes by exactly that backoff |
| Traces.CallIff | internal/db/jobstore.go:215-242 | a failure report can be applied iff it has read the count and has not been applied since |
| Leases.IssuedMeansGranted | internal/db/jobstore.go:215-233 | a report is issued, that is, names a version the row had reached at its read, exactly if that lease was granted to its worker before the read |
| Leases.UnissuedReadCanBeStale | internal/db/jobstore.go:215-233 | a concrete trace in which a report naming a lease before it is granted applies a stale count |
| StaleReads.StaleReadIff | internal/db/jobstore.go:215-233 | the count a report read can be out of date when its update is accepted iff at the read the job could fail without being dead-lettered and the report names a later lease than the one that would fail |
| Accounting.GrantConservation | internal/db/jobstore.go:97-118 | lease_version equals accepted failures plus reclaims plus one if the row still names a worker; retry_count counts accepted failures; success happened at most once |
| Accounting.CancelledWhileLeased | internal/db/jobstore.go:279-284 | a cancelled row was cancelled by its own tenant, and names a worker exactly when it was leased then |
| Accounting.DeadLetterExactly | internal/db/jobstore.go:194-213 | a job is dead-lettered iff exactly max(1, max_retries) failures were accepted, never more; reclaims do not count |
| Accounting.MeasureStep | internal/db/jobstore.go:97-284 | every accepted status change but a reclaim decreases the measure, a reclaim adds one or two, renewals and reads nothing |
| Accounting.ChangesBounded | internal/db/jobstore.go:97-284 | a job with R reclaims changes status at most 3 * (max(1, max_retries) + R) times |
| Accounting.RetryAfterFailure | internal/db/jobstore.go:205-208 | an accepted failure of an issued report dead-letters the job or puts retry_after at least the documented minimum of its exponent ahead, whatever max_retries and the other reports are |
| Accounting.RetryDelayBounded | internal/db/jobstore.go:227-233 | whatever was reported and converted, a retry is put off by at most the cap plus a quarter |
| Accounting.ClaimWaitsForBackoff | internal/db/jobstore.go:107-108 | the first claim after an issued failure comes at least the documented minimum delay of its exponent later |
| Accounting.WaitsOnlyAfterFailure | internal/db/jobstore.go:205-208 | a pending row has a retry_after iff an accepted failure, and neither a reclaim nor a later claim, put it back |
| Accounting.EligibleAfterBackoff | internal/db/jobstore.go:107-108 | a job put back by a failure is eligible exactly from the failure time plus its backoff on, which for an issued report is that of the row's own retry count |
| Accounting.ScheduleInvariant | internal/db/jobstore.go:204-233 | when the accepted failures are issued, at every point of a trace the clock or retry_after is past the sum of the minimum delays of all failures so far |
| Accounting.TimeToDeadLetter | internal/db/jobstore.go:194-213 | when the accepted failures are issued, a job is dead-lettered no sooner than its creation plus the minimum delays of all failures but the last |
| Renewal.RenewalsRefused | scheduler/scheduler.go:164-198 | without mark-running, every renewal is refused, and a reclaim is accepted iff a grant is open and was made more than a lease length ago |
| Renewal.RenewalAcceptedIff | scheduler/scheduler.go:164-198 | a renewal is accepted iff its worker's grant of that version is open and was marked running |
| Renewal.RenewingHolderNotReclaimed | worker/worker.go:336-369 | with mark-running, a running holder that renews at gaps of at most a lease length is not reclaimed and its renewals are accepted |
| Cluster.RunsProjectToTraces | internal/db/jobstore.go:96-295 | in every run of the table each row is exactly the result of the trace of statements that reached it |
| Cluster.ClusterLeasesDisjoint | internal/db/jobstore.go:97-118 | in every run, between two grants of a job there is an accepted failure of the first holder, or a reclaim later than a lease length after its grant and every accepted renewal |
| Cluster.AtMostOneResult | internal/db/jobstore.go:170-213 | in every run each lease of a job has at most one accepted result and a job at most one success |
| Cluster.OneJobPerRequest | internal/db/jobstore.go:24-49 | two rows never carry the same request id |
| Cluster.RowAppearsIff | internal/db/jobstore.go:24-49 | a row appears iff an event asks for its job and its id and request id are free, with exactly the columns asked for; rows never disappear |
| Cluster.ActiveIff | scheduler/scheduler.go:801-809 | in every run the jobs that count against a quota are the tenant's unfinished ones |
| Cluster.CheckedIff | scheduler/scheduler.go:211-229 | a submission is between check and insert from a check that found the tenant below its quota until it inserts or is abandoned |
| Cluster.QuotaOvershootBounded | scheduler/scheduler.go:211-229 | with at most k submissions between check and insert, a tenant's active jobs stay within quota + k - 1 plus unchecked cron jobs |
| Overshoot.QuotaOvershootReached | scheduler/scheduler.go:211-229 | for every quota and width of at least one, some run without cron jobs has exactly quota + width - 1 active jobs |
| Store.ReclaimRowByRow | internal/db/jobstore.go:247-256 | the multi-row reclaim equals reclaiming the expired rows one by one in any order |
| Store.FirstByPriorityThenAge | internal/db/jobstore.go:105-118 | the claimed job has no eligible job of a higher priority beside it, nor an older one of the same |
| Store.JobStore.CreateJob | internal/db/jobstore.go:24-60 | returns the one job with the request id; inserts a pending row and its audit row only if there was none |
| Store.JobStore.ClaimNextJob | internal/db/jobstore.go:96-145 | claims an eligible job that is first by rank and age, for a lease length from now, bumping its version; none iff every pending job waits for a later retry_after |
| Store.JobStore.MarkJobRunning | internal/db/jobstore.go:148-167 | accepts exactly the fenced worker of a dispatched row |
| Store.JobStore.CompleteJob | internal/db/jobstore.go:170-190 | accepts exactly the current holder, and only then succeeds the row and logs it |
| Store.JobStore.FailUpdate | internal/db/jobstore.go:194-242 | the guarded failure update with an earlier computed backoff, and the audit row with the new status |
| Store.JobStore.FailJob | internal/db/jobstore.go:193-242 | undisturbed, a failure is accepted iff its reporter holds the lease, and is delayed by the backoff of the row's own retry count |
| Store.JobStore.RecordReclaims | internal/db/jobstore.go:264-274 | one RUNNING to PENDING audit row per reclaimed job, each job once, and their number |
| Store.JobStore.ReclaimExpiredJobs | internal/db/jobstore.go:246-275 | resets exactly the expired leases, counts and logs them |
| Store.JobStore.CancelJob | internal/db/jobstore.go:278-295 | cancels exactly a pending, dispatched or running job of the given tenant, and changes only its status |
| Store.JobStore.RenewLease | scheduler/scheduler.go:164-198 | extends the expiry exactly for the fenced worker of a running row |
| Handlers.SubmitJob | scheduler/scheduler.go:205-248 | rejects iff the tenant's jobs that are not succeeded, cancelled or dead-lettered reach the quota; otherwise inserts exactly the submitted job unless its request id is taken |
| Handlers.ReportResult | scheduler/scheduler.go:120-161 | accepts iff the reporter holds the lease; completes the job, or counts the failure, sets its retry time or dead-letters it, with the audit row; asks for an autopsy iff the job is dead-lettered |
| Backoff.BackoffBounded | internal/retry/backoff.go:11-30 | with 0 <= base <= max the delay is within [0, max + max/4] for every exponent, conversion result and random number |
| Backoff.NegativeGivesBase | internal/retry/backoff.go:12-27 | a conversion that overflows to a negative value gives the base delay |
| Backoff.BackoffInWindow | internal/retry/backoff.go:11-30 | when the conversion is exact the delay is within a quarter of min(base * 2^n, max) |
| Backoff.PossibleDelays | internal/retry/backoff.go:18-23 | with an exact conversion the possible delays are exactly those within a quarter of the centre, the upper end excluded |
| Backoff.DocumentedWindowIff | internal/retry/backoff.go:9-27 | the documented window holds for all conversion results and random numbers iff the cap is zero, or base is a float64, 2^n is finite, base * 2^n fits an int64, and the largest jittered value fits one too or the base is in the window |
| Backoff.DefaultBaseOverflow | config/config.go:76 | with the default base of two seconds the conversion is exact iff n <= 32 |
| Backoff.ConvertsIff | internal/retry/backoff.go:12-13 | the conversion is exact iff the base is zero and n at most 1023, or it is a float64 and the product fits an int64 |
| Backoff.FloatIff | internal/retry/backoff.go:12-13 | the integers that are float64 values are those with a significand of at most 53 bits |
| Workers.DrainedActiveIff | internal/db/workerstore.go:176-191 | a drained or dead worker is active again iff it has registered or sent a heartbeat since and was not drained or marked dead after that |
| Workers.SendHeartbeat | worker/worker.go:300-334 | a heartbeat leaves its worker active, draining or not: a refusal makes it register |
| Workers.HandleHeartbeat | scheduler/scheduler.go:92-117 | drains a worker that announces draining, else records the heartbeat of an active worker only, and says which |
| Workers.WorkerStore.RegisterWorker | internal/db/workerstore.go:24-58 | inserts or reactivates the worker, keeping reported load and capacity |
| Workers.WorkerStore.RecordHeartbeat | internal/db/workerstore.go:62-80 | accepted iff the worker is active |
| Workers.WorkerStore.GetLeastLoadedWorker | internal/db/workerstore.go:195-219 | a worker below capacity with the least load fraction; none iff no active worker is below capacity |
| Workers.LoadIsFraction | internal/db/workerstore.go:195-219 | the integer comparison of two workers is the comparison of their active/max fractions |
| Dispatch.DispatchPendingJobs | scheduler/scheduler.go:664-687 | terminates; with a worker available it claims exactly the eligible jobs, once each, in queue order, and leaves none; every claim goes to a least loaded worker |
| Dispatch.DrainOrderUnique | internal/db/jobstore.go:105-118 | without ties the queue order of the eligible jobs is unique |
| Dispatch.CapacityKeptIff | scheduler/scheduler.go:664-687 | every outcome of a tick keeps every available worker within max_jobs iff each least loaded worker has room for all the eligible jobs |
| Dispatch.SoleLeastLoadedOverfilledIff | scheduler/scheduler.go:664-687 | with one strictly least loaded worker every outcome overfills it iff it lacks room for all the eligible jobs |
| RequestIds.RequestIdInjective | scheduler/cron.go:102-103 | two request ids agree only for the same schedule id and the same second |
| RequestIds.DecimalDenotes | scheduler/cron.go:102-103 | the second is printed in base ten |
| Calendars.NextIsLeast | scheduler/cron.go:54-60 | the next run time is the least slot strictly after the given time |
| Calendars.CatchUp | scheduler/cron.go:161-182 | the catch-up loop collects the due runs from next_run_at on, at most ten |
| Calendars.ComputeMissedRuns | scheduler/cron.go:151-187 | the runs each policy fires |
| Calendars.CatchupIsFirstDue | scheduler/cron.go:161-182 | RUN_ALL fires exactly the first min(10, k) of the k due slots, in order |
| Calendars.LaterCatchupExtends | scheduler/cron.go:161-182 | a later evaluation from the same next_run_at fires an extension |
| Calendars.CatchupCoversIff | scheduler/cron.go:161-182 | RUN_ALL fires every slot below the advanced next_run_at iff at most ten were due |
| Calendars.SingleRunCoversIff | scheduler/cron.go:151-159 | SKIP and RUN_ONCE fire the oldest due slot, and leave none out iff at most one was due |
| Cron.OneJobPerSlot | scheduler/cron.go:101-130 | in every run of concurrent, crashing, stale evaluators each slot of each schedule has at most one job, and a job belongs to one slot |
| Cron.RunAllHasNoGaps | scheduler/cron.go:95-148 | if no evaluation is capped, every slot from the first up to next_run_at has a job in every reachable state |
| Cron.NothingFiresEarly | internal/db/schedulestore.go:76-105 | every run an evaluation still has to fire was due when it started, and its schedule enabled and due |
| Cron.EnabledIff | internal/db/schedulestore.go:78-86 | in every run a schedule exists once created, and is enabled as its last creation or toggle left it |
| Cron.BeginsIff | internal/db/schedulestore.go:76-90 | a free evaluation starts iff its schedule exists, was last left enabled, and its next_run_at has come by the database clock |
| Cron.AdvancesOnlyWhenFired | scheduler/cron.go:95-148 | in every run, an evaluation advances its schedule only when every run that its policy missed at its start has a job |
| Cron.RequestIff | internal/db/jobstore.go:25-49 | in every run a request id has a job iff a client or an evaluation inserted it |
| Cron.FiringStep | scheduler/cron.go:95-148 | an evaluation lasts from its start until it crashes or advances; it starts with the runs of the policy and each insert takes the first one left |
| Cron.AdvanceMovesBackIff | internal/db/schedulestore.go:108-120 | in every run, an evaluation's update moves next_run_at back iff the last other update since its start came from a clock that had reached the slot it writes, or there was none and its own clock was behind the row by a slot |
| Cron.MovesBackOnlyBehindAnother | internal/db/schedulestore.go:108-120 | an evaluator whose clock had reached the next_run_at it read moves it back iff another one has since advanced it past the slot it writes |
| Cron.StaleAdvanceMovesBack | internal/db/schedulestore.go:76-119 | two evaluators can work on one due schedule, and the slower one moves next_run_at back |
| Evaluator.ScheduleStore.GetDueSchedules | internal/db/schedulestore.go:76-105 | exactly the schedules that are enabled and whose next_run_at is not after now, once each, oldest first |
| Evaluator.ScheduleStore.AdvanceSchedule | internal/db/schedulestore.go:108-120 | overwrites the two run columns of that schedule only |
| Evaluator.FireSchedule | scheduler/cron.go:95-148 | adds exactly the missing jobs of the policy's runs, changes no other job, and advances the schedule past its own time |
| Evaluator.CapLeavesGap | scheduler/cron.go:161-175 | whatever jobs there were before, a RUN_ALL evaluation leaves a due slot without a job below the new next_run_at iff some due slot after the first ten had none; so when no slot had one, iff more than ten were due |
| RateLimit.WindowRuleSinceEviction | scheduler/ratelimit.go:23-93 | whatever the settings, a request is admitted iff for it and every earlier request of its tenant since its bucket was last deleted one more admission fits burst + rate * elapsed |
| RateLimit.WindowRule | scheduler/ratelimit.go:23-37 | without eviction, or with it when an idle tick refills a burst, a request is admitted iff for it and every earlier request of its tenant one more admission fits burst + rate * elapsed |
| RateLimit.HasBucketIff | scheduler/ratelimit.go:60-93 | in every history a tenant has a bucket iff it has asked and no cleanup came more than a tick after its last request, whatever was in the bucket |
| RateLimit.WindowBound | scheduler/ratelimit.go:23-37 | under the same condition any window of length T admits at most burst + rate * T |
| RateLimit.EvictedWindowBound | scheduler/ratelimit.go:78-93 | when an idle tick does not refill a burst, any window of length T still admits at most burst + (burst / tick) * T |
| Bursts.EvictedBurstsReached | scheduler/ratelimit.go:78-93 | for every j and every gap longer than the tick some history admits j whole bursts within (j - 1) * gap |
| RateLimit.EvictionInvisible | scheduler/ratelimit.go:78-93 | if an idle tick refills a burst, cleanup passes anywhere change no decision |
| RateLimit.EvictionVisible | scheduler/ratelimit.go:84-88 | otherwise some history is decided differently |
| RateLimit.EvictionInvisibleIff | scheduler/ratelimit.go:78-93 | for a whole-numbered burst, eviction is invisible in every history iff burst <= rate * cleanupTick |
| RateLimit.TokenBucket.Allow | scheduler/ratelimit.go:23-37 | refills lazily up to the cap and spends a token iff there is one |
| RateLimit.RateLimiter.Allow | scheduler/ratelimit.go:60-75 | decides by the tenant's own bucket, creating a full one if needed, and leaves the others alone |
| RateLimit.RateLimiter.Cleanup | scheduler/ratelimit.go:78-93 | keeps exactly the buckets last used at most a tick ago, unchanged |
| WorkerTable.TableSound | worker/worker.go:105-178 | both maps have the same keys, within the capacity, and every entry has an unfinished execution of that job and version |
| WorkerTable.TrackedIffNotDisplaced | worker/worker.go:172-178 | an unfinished execution is tracked iff its job was not dispatched again, cancelled or cleaned up by another execution since |
| WorkerTable.TracksAllIffUndisturbed | worker/worker.go:105-178 | every unfinished execution is tracked at every point of a run iff no statement displaced one |
| WorkerTable.CapacityBoundsExecutions | worker/worker.go:114-122 | in runs that displace nothing, unfinished executions stay within the capacity |
| WorkerTable.CapacityBoundsIff | worker/worker.go:114-122 | over all runs without the uncalled cancellation, unfinished executions stay within the capacity iff it is at most one |
| WorkerTable.ExecutionsUnbounded | worker/worker.go:105-142 | with a capacity of two or more, any number of executions of one job dispatched again and again can be under way while the table shows one |
| WorkerTable.CancelledExecutionsUnbounded | worker/worker.go:145-165 | with the cancellation call, even one slot does not bound them |
| WorkerTable.Worker.DispatchJob | worker/worker.go:105-142 | refuses at capacity, otherwise tracks the job and starts an execution |
| WorkerTable.Worker.CancelJob | worker/worker.go:145-165 | drops both entries of a tracked job |
| WorkerTable.Worker.FinishExecution | worker/worker.go:171-178 | the cleanup drops whatever entries its job has by then |
| Autopsy.GenerateAutopsy | internal/autopsy/report.go:56-142 | one numbered attempt per failure row and one timeline event per row, of the first hundred rows, in order, with reasons scrubbed, and the time from the first to the last of these |
| Autopsy.BuildTimeline | internal/autopsy/report.go:84-95 | one event per row: its time, worker, and states with the scrubbed reason if there is one |
| Autopsy.ExtractAttempts | internal/autopsy/report.go:98-109 | one attempt per failure row, numbered from one, with its worker, time and scrubbed reason |
| Autopsy.FailureRowAt | internal/autopsy/report.go:98-115 | exactly the rows to PENDING from a named state, or to DEAD_LETTER, are listed, in the order of the log |
| Autopsy.AttemptsBelowCap | internal/autopsy/report.go:102-132 | below the cap the attempts listed equal lease_version, and equal the stated total iff the job was never reclaimed |
| Autopsy.AttemptsCapped | internal/autopsy/report.go:68-115 | without mark-running rows the report lists min(lease_version, 49) attempts |

## Left out

- Transport, authentication, TLS, metrics, health endpoints, logging and the command-line client: no state property.
- Payload execution and its validation, secret scrubbing (a parameter here) and cause classification: string matching.
- Exactly-once execution: two workers can run one job at once; only grants and accepted results are single.
- Leader election: the theorems hold for any number of simultaneous leaders, so nothing depends on it.
- Liveness and fairness: LOW jobs can starve, and the number of reclaims is unbounded.
- PostgreSQL itself: a statement that waits for a row lock is taken to see one current time.
- The columns payload, last_error, lease_id, run_timeout_ms, started_at, completed_at and updated_at, which guard nothing.
- 32-bit counters: lease_version is unbounded here; the column would overflow after 2^31 claims of one job.
- Database errors: a failed statement is a statement that did not happen; a lost audit row is not modelled outside `Autopsy`, whose counts assume a complete log in order.
- The heartbeat reaper, listing and lookup queries, and schedule creation with its quota: single statements with nothing to prove across operations.
- Cron expressions without a next slot, for which the library returns the zero time; calendars here never end.
- Floating point: token counts, seconds and base * 2^n are exact; an inexact or out-of-range base * 2^n is an arbitrary int64.
- Accounting.RetryAfterFailure: promises no minimum for an exponent whose conversion or jitter overflows, nor for a failure whose report named its lease before it was granted; `DocumentedWindowIff` and `StaleReadIff` say when these occur. The same holds for ClaimWaitsForBackoff, ScheduleInvariant and TimeToDeadLetter.
- Backoff.DocumentedWindowIff: Go rounds a base that is no float64 (above 2^53 ns, 104 days); here its product is arbitrary.
- Workers.SendHeartbeat: one step here; the two calls it makes, with others between them, are the separate statements of the fleet. A lost re-registration is a refused heartbeat without one.
- Autopsy.GenerateAutopsy: does not model the probable cause and recommendations, which match strings, nor the columns copied from the job.
- Dispatch.DispatchPendingJobs: takes one current time for the whole tick; jobs that become eligible during the tick are not modelled.
- RateLimit.RateLimiter.Allow: reads the clock once where the code reads it twice for a new tenant; with a non-negative rate the cap makes the decisions equal.
- Deleting a schedule during its evaluation: modelled as a statement of the store, not in the concurrent runs.
