/** A row of the jobs table and the guarded single-row statements that change it. */
module Jobs {
  import opened Backoff

  type JobId = string
  type WorkerId = string

  /** Database times, in microseconds. */
  type Time = int
  const SECOND: int := 1_000_000

  datatype Option<+T> = None | Some(value: T)

  datatype Status = Pending | Dispatched | Running | Succeeded | Cancelled | DeadLetter

  /** The columns that decide how a job moves; nullable columns are options. */
  datatype Job = Job(
    requestId: string,
    tenant: string,
    priority: string,
    maxRetries: int,
    createdAt: Time,
    status: Status,
    retryCount: nat,
    worker: Option<WorkerId>,
    expiresAt: Option<Time>,
    version: nat,
    retryAfter: Option<Time>,
    dispatchedAt: Option<Time>)

  /** The settings the statements take: lease length in whole seconds, retry delays in nanoseconds. */
  datatype Config = Config(leaseSecs: int, retryBase: int64, retryMax: int64)

  /** The row an insert writes: the given columns and the table's defaults. */
  function NewJob(requestId: string, tenant: string, priority: string, maxRetries: int, now: Time): Job {
    Job(requestId, tenant, priority, maxRetries, now, Pending, 0, None, None, 0, None, None)
  }

  /** The row as its insert wrote it, recovered from the columns no statement changes. */
  function Origin(j: Job): Job {
    NewJob(j.requestId, j.tenant, j.priority, j.maxRetries, j.createdAt)
  }

  predicate Terminal(j: Job) {
    j.status.Succeeded? || j.status.Cancelled? || j.status.DeadLetter?
  }

  predicate Leased(j: Job) {
    j.status.Dispatched? || j.status.Running?
  }

  /** The fencing guard of every worker-driven statement: this worker, this lease version. */
  predicate Fenced(j: Job, w: WorkerId, v: nat) {
    j.worker == Some(w) && j.version == v
  }

  predicate Held(j: Job, w: WorkerId, v: nat) {
    Fenced(j, w, v) && Leased(j)
  }

  predicate Eligible(j: Job, now: Time) {
    j.status.Pending? && (j.retryAfter.None? || j.retryAfter.value <= now)
  }

  predicate Expired(j: Job, now: Time) {
    Leased(j) && j.expiresAt.Some? && j.expiresAt.value < now
  }

  predicate Exhausted(j: Job) {
    j.retryCount + 1 >= j.maxRetries
  }

  function Claimed(j: Job, w: WorkerId, leaseSecs: int, now: Time): Job {
    j.(status := Dispatched, worker := Some(w), expiresAt := Some(now + leaseSecs * SECOND),
    version := j.version + 1, dispatchedAt := Some(now))
  }

  function Started(j: Job): Job {
    j.(status := Running)
  }

  function Renewed(j: Job, leaseSecs: int, now: Time): Job {
    j.(expiresAt := Some(now + leaseSecs * SECOND))
  }

  function Completed(j: Job): Job {
    j.(status := Succeeded)
  }

  function Failed(j: Job, backoffSecs: int, now: Time): Job {
    j.(status := if Exhausted(j) then DeadLetter else Pending,
    retryCount := j.retryCount + 1,
    worker := None,
    expiresAt := None,
    retryAfter := if Exhausted(j) then None else Some(now + backoffSecs * SECOND))
  }

  function Reclaimed(j: Job): Job {
    j.(status := Pending, worker := None, expiresAt := None, retryAfter := None)
  }

  function CancelledBy(j: Job): Job {
    j.(status := Cancelled)
  }

  /** The limit on accepted failures: a limit below one still allows the first failure. */
  function Limit(j: Job): int {
    if j.maxRetries > 1 then j.maxRetries else 1
  }

  /** The tenant's jobs that count against its quota. */
  function ActiveIds(jobs: map<JobId, Job>, tenant: string): set<JobId> {
    set id | id in jobs && jobs[id].tenant == tenant && !Terminal(jobs[id])
  }
}
