/** Counting a job's grants, failures and reclaims, and bounding its runs in steps and in time. */
module Accounting {
  import opened Backoff
  import opened Jobs
  import opened Traces
  import opened Leases

  datatype Kind = Claims | Starts | Renewals | Completions | Reads | Failures | Reclaims | Cancels

  function KindOf(op: Op): Kind {
    match op
    case Claim(_) => Claims
    case MarkRunning(_, _) => Starts
    case Renew(_, _) => Renewals
    case Complete(_, _) => Completions
    case ReadRetry(_, _, _, _, _) => Reads
    case FailUpdate(_) => Failures
    case Reclaim => Kind.Reclaims
    case Cancel(_) => Kind.Cancels
  }

  /** How many of the first k statements were accepted and of this kind. */
  function Count(t: Trace, k: nat, kind: Kind): nat
    requires k <= |t.steps|
  {
    if k == 0 then 0
    else Count(t, k - 1, kind) + if t.Accepted(k - 1) && KindOf(t.steps[k - 1].op) == kind then 1 else 0
  }

  lemma CountStep(t: Trace, i: nat, k: nat, kind: Kind)
    requires k == i + 1 <= |t.steps|
    ensures Count(t, k, kind) == Count(t, i, kind) + if t.Accepted(i) && KindOf(t.steps[i].op) == kind then 1 else 0
  {
  }

  /** Of the grants so far, all have ended in a failure or a reclaim except one that the row still names. */
  predicate Conserved(j: Job, claims: nat, failures: nat, reclaims: nat, completions: nat) {
    && j.version == claims && j.retryCount == failures
    && j.version == j.retryCount + reclaims + (if j.worker.Some? then 1 else 0)
    && (Leased(j) || j.status.Succeeded? ==> j.worker.Some?)
    && (j.status.Pending? || j.status.DeadLetter? ==> j.worker.None?)
    && (j.status.Succeeded? <==> completions == 1)
    && completions <= 1
  }

  predicate ConservedAt(t: Trace, k: nat)
    requires k <= |t.steps|
  {
    Conserved(t.JobAt(k), Count(t, k, Claims), Count(t, k, Failures), Count(t, k, Kind.Reclaims),
              Count(t, k, Completions))
  }

  function Tally(r: Row, op: Op, now: Time, kind: Kind): nat {
    if Accepts(r, op, now) && KindOf(op) == kind then 1 else 0
  }

  lemma ConservedStep(cfg: Config, r: Row, op: Op, now: Time, claims: nat, failures: nat, reclaims: nat,
                      completions: nat)
    requires Conserved(r.job, claims, failures, reclaims, completions)
    ensures Conserved(Step(cfg, r, op, now).job, claims + Tally(r, op, now, Claims),
                      failures + Tally(r, op, now, Failures), reclaims + Tally(r, op, now, Kind.Reclaims),
                      completions + Tally(r, op, now, Completions))
  {
  }

  lemma ConservedOneMore(t: Trace, k: nat)
    requires k < |t.steps| && ConservedAt(t, k)
    ensures ConservedAt(t, k + 1)
  {
    ConservedStep(t.cfg, t.At(k), t.steps[k].op, t.steps[k].at, Count(t, k, Claims), Count(t, k, Failures),
                  Count(t, k, Kind.Reclaims), Count(t, k, Completions));
    CountStep(t, k, k + 1, Claims);
    CountStep(t, k, k + 1, Failures);
    CountStep(t, k, k + 1, Kind.Reclaims);
    CountStep(t, k, k + 1, Completions);
  }

  /** Every grant is accounted for: it ended in a failure or a reclaim, or it is the one the row still
    names, which a leased, succeeded or cancelled-while-leased job does. */
  lemma {:induction false} GrantConservation(t: Trace, k: nat)
    requires t.Valid() && k <= |t.steps|
    ensures ConservedAt(t, k)
  {
    if k > 0 {
      GrantConservation(t, k - 1);
      ConservedOneMore(t, k - 1);
    }
  }

  /** A cancelled job was cancelled by its own tenant, and it names a worker exactly when the
    cancellation found it leased. */
  lemma {:induction false} CancelledWhileLeased(t: Trace, k: nat) returns (c: nat)
    requires t.Valid() && k <= |t.steps| && t.JobAt(k).status.Cancelled?
    ensures c < k && t.Cancels(c) && t.steps[c].op == Cancel(t.origin.tenant)
    ensures t.JobAt(k).worker.Some? <==> Leased(t.JobAt(c))
  {
    RowInvariant(t, k - 1);
    RowInvariant(t, k);
    if t.JobAt(k - 1).status.Cancelled? {
      c := CancelledWhileLeased(t, k - 1);
    } else {
      c := k - 1;
    }
  }

  /** A job is dead-lettered exactly by its max(1, max_retries)-th accepted failure; any other job has
    had fewer, and reclaims never count. */
  lemma DeadLetterExactly(t: Trace, k: nat)
    requires t.Valid() && k <= |t.steps|
    ensures t.JobAt(k).status.DeadLetter? <==> Count(t, k, Failures) == Limit(t.origin)
    ensures Count(t, k, Failures) <= Limit(t.origin)
  {
    RowInvariant(t, k);
    GrantConservation(t, k);
  }

  /** Status changes: everything accepted except renewals and reads. */
  function Changes(t: Trace, k: nat): nat
    requires k <= |t.steps|
  {
    Count(t, k, Claims) + Count(t, k, Starts) + Count(t, k, Completions) + Count(t, k, Failures)
    + Count(t, k, Kind.Reclaims) + Count(t, k, Kind.Cancels)
  }

  /** What is left of a job's life. */
  function Measure(j: Job): int {
    match j.status
    case Pending => 3 * (Limit(j) - j.retryCount)
    case Dispatched => 3 * (Limit(j) - j.retryCount) - 1
    case Running => 3 * (Limit(j) - j.retryCount) - 2
    case _ => 0
  }

  /** Every accepted status change but a reclaim uses up the measure; a reclaim restores at most two;
    renewals and reads leave it alone. */
  lemma MeasureStep(t: Trace, k: nat)
    requires t.Valid() && t.Accepted(k)
    ensures 0 <= Measure(t.JobAt(k + 1))
    ensures match KindOf(t.steps[k].op)
            case Renewals => Measure(t.JobAt(k + 1)) == Measure(t.JobAt(k))
            case Reads => Measure(t.JobAt(k + 1)) == Measure(t.JobAt(k))
            case Reclaims => Measure(t.JobAt(k)) < Measure(t.JobAt(k + 1)) <= Measure(t.JobAt(k)) + 2
            case _ => Measure(t.JobAt(k + 1)) < Measure(t.JobAt(k))
  {
    RowInvariant(t, k);
    RowInvariant(t, k + 1);
  }

  lemma MeasureNonNegative(t: Trace, k: nat)
    requires t.Valid() && k <= |t.steps|
    ensures 0 <= Measure(t.JobAt(k))
  {
    RowInvariant(t, k);
  }

  predicate IsChange(t: Trace, k: nat) {
    t.Accepted(k) && !KindOf(t.steps[k].op).Renewals? && !KindOf(t.steps[k].op).Reads?
  }

  lemma ChangesStep(t: Trace, k: nat)
    requires k < |t.steps|
    ensures Changes(t, k + 1) == Changes(t, k) + if IsChange(t, k) then 1 else 0
    ensures Count(t, k + 1, Kind.Reclaims)
            == Count(t, k, Kind.Reclaims) + if t.Accepted(k) && t.steps[k].op.Reclaim? then 1 else 0
  {
  }

  /** Changes so far and the measure left are paid for by the limit and the reclaims. */
  predicate Budget(t: Trace, k: nat)
    requires k <= |t.steps|
  {
    Changes(t, k) + Measure(t.JobAt(k)) <= 3 * (Limit(t.origin) + Count(t, k, Kind.Reclaims))
  }

  lemma BudgetOneMore(t: Trace, k: nat)
    requires t.Valid() && k < |t.steps| && Budget(t, k)
    ensures Budget(t, k + 1)
  {
    ChangesStep(t, k);
    if t.Accepted(k) {
      MeasureStep(t, k);
    }
  }

  /** A job with R reclaims changes status at most 3 * (max(1, max_retries) + R) times. */
  lemma {:induction false} ChangesBounded(t: Trace, k: nat)
    requires t.Valid() && k <= |t.steps|
    ensures Budget(t, k)
    ensures Changes(t, k) <= 3 * (Limit(t.origin) + Count(t, k, Kind.Reclaims))
  {
    if k > 0 {
      ChangesBounded(t, k - 1);
      BudgetOneMore(t, k - 1);
    }
    MeasureNonNegative(t, k);
  }

  /** The settings the documentation assumes. */
  predicate SaneRetries(cfg: Config) {
    0 <= cfg.retryBase <= cfg.retryMax
  }

  /** The documented minimum of the n-th delay; none where its computation overflows. */
  function LeastDelay(cfg: Config, n: nat): int
    requires SaneRetries(cfg)
  {
    if Exact(n, cfg.retryBase, cfg.retryMax) then LeastSeconds(n, cfg.retryBase, cfg.retryMax) * SECOND else 0
  }

  function TotalDelay(cfg: Config, n: nat): int
    requires SaneRetries(cfg)
  {
    if n == 0 then 0 else TotalDelay(cfg, n - 1) + LeastDelay(cfg, n - 1)
  }

  lemma BackoffAtLeast(t: Trace, r: nat)
    requires SaneRetries(t.cfg) && r < |t.steps| && t.steps[r].op.ReadRetry?
    ensures LeastDelay(t.cfg, t.JobAt(r).retryCount) <= BackoffAt(t, r) * SECOND
  {
    var n, op := t.JobAt(r).retryCount, t.steps[r].op;
    BackoffBounded(n, t.cfg.retryBase, t.cfg.retryMax, op.raw, op.pick);
    if Exact(n, t.cfg.retryBase, t.cfg.retryMax) {
      BackoffInWindow(n, t.cfg.retryBase, t.cfg.retryMax, op.raw, op.pick);
    }
  }

  /** An accepted failure of an issued lease delays the retry by at least the documented minimum for its
    exponent, whatever the job's other failures, its limit, and other reports are. */
  lemma RetryAfterFailure(t: Trace, k: nat, w: WorkerId, v: nat)
    requires SaneRetries(t.cfg) && t.Fails(k, w, v) && Issued(t, k)
    ensures var j := t.JobAt(k + 1);
            j.status.DeadLetter? ||
            (j.retryAfter.Some? && t.steps[k].at + LeastDelay(t.cfg, t.JobAt(k).retryCount) <= j.retryAfter.value)
  {
    var r := ReadNeverStale(t, k, w, v);
    BackoffAtLeast(t, r);
  }

  /** Whoever reported it and whatever the conversion did, a retry is never put off for longer than
    the cap plus a quarter. */
  lemma RetryDelayBounded(t: Trace, k: nat, w: WorkerId, v: nat)
    requires 0 <= t.cfg.retryBase <= t.cfg.retryMax && t.Fails(k, w, v)
    ensures var j := t.JobAt(k + 1);
            j.retryAfter.None? ||
            t.steps[k].at <= j.retryAfter.value
            <= t.steps[k].at + (t.cfg.retryMax + t.cfg.retryMax / 4) / NANOS_PER_SECOND * SECOND
  {
    var r := ReadNeverStale(t, k, w, v);
    BackoffBounded(t.JobAt(r).retryCount, t.cfg.retryBase, t.cfg.retryMax, t.steps[r].op.raw, t.steps[r].op.pick);
    assert 0 <= BackoffAt(t, r) <= (t.cfg.retryMax + t.cfg.retryMax / 4) / NANOS_PER_SECOND;
  }

  /** A pending row only waits or is cancelled until it is claimed. */
  lemma {:induction false} PendingUntilClaimed(t: Trace, i: nat, k: nat)
    requires i <= k <= |t.steps| && t.JobAt(i).status.Pending?
    requires forall c :: i <= c < k ==> !(t.Accepted(c) && t.steps[c].op.Claim?)
    requires forall c :: i <= c < k ==> !t.Cancels(c)
    ensures t.JobAt(k) == t.JobAt(i)
    decreases k
  {
    if i < k {
      PendingUntilClaimed(t, i, k - 1);
      assert !t.Cancels(k - 1);
    }
  }

  /** Statement f is the accepted failure that a row still waits for before statement k: no claim since. */
  predicate WaitsFor(t: Trace, f: nat, k: nat)
    requires k <= |t.steps|
  {
    && f < k && t.Accepted(f) && t.steps[f].op.FailUpdate?
    && forall c :: f < c < k ==> !(t.Accepted(c) && t.steps[c].op.Claim?)
  }

  lemma WaitingRowUnchanged(t: Trace, f: nat, k: nat)
    requires k <= |t.steps| && WaitsFor(t, f, k) && t.JobAt(k).status.Pending?
    ensures t.JobAt(f + 1).status.Pending? && t.JobAt(k) == t.JobAt(f + 1)
  {
    if t.JobAt(f + 1).status.DeadLetter? {
      TerminalForever(t, f + 1, k);
    }
    forall c | f + 1 <= c < k
      ensures !t.Cancels(c)
    {
      if t.Cancels(c) {
        TerminalForever(t, c + 1, k);
      }
    }
    PendingUntilClaimed(t, f + 1, k);
  }

  /** The first claim after an accepted failure comes no sooner than the documented minimum delay. */
  lemma ClaimWaitsForBackoff(t: Trace, k: nat, q: nat, w: WorkerId, v: nat)
    requires SaneRetries(t.cfg) && t.Fails(k, w, v) && Issued(t, k)
    requires t.Accepted(q) && t.steps[q].op.Claim? && WaitsFor(t, k, q)
    ensures t.steps[k].at + LeastDelay(t.cfg, t.JobAt(k).retryCount) <= t.steps[q].at
  {
    RetryAfterFailure(t, k, w, v);
    WaitingRowUnchanged(t, k, q);
  }

  /** A failure leaves the row unleased until the next claim. */
  lemma {:induction false} LeasedHasNoWait(t: Trace, f: nat, k: nat)
    requires k <= |t.steps| && Leased(t.JobAt(k))
    ensures !WaitsFor(t, f, k)
  {
    if WaitsFor(t, f, k) && f < k - 1 {
      LeasedHasNoWait(t, f, k - 1);
    }
  }

  /** A statement that finds the job unleased and leaves it pending changes nothing about its wait. */
  lemma WaitKept(t: Trace, k: nat)
    requires k < |t.steps| && t.JobAt(k).status.Pending? && t.JobAt(k + 1).status.Pending?
    ensures t.JobAt(k + 1).retryAfter == t.JobAt(k).retryAfter
    ensures !(t.Accepted(k) && (t.steps[k].op.FailUpdate? || t.steps[k].op.Claim?))
  {
  }

  /** The end of a lease that leaves the job pending sets a wait exactly when it was a failure. */
  lemma WaitSet(t: Trace, k: nat)
    requires k < |t.steps| && Leased(t.JobAt(k))
    requires t.JobAt(k + 1).status.Pending?
    ensures t.JobAt(k + 1).retryAfter.Some? <==> t.steps[k].op.FailUpdate?
    ensures t.Accepted(k) && !t.steps[k].op.Claim?
  {
  }

  lemma WaitsOneMore(t: Trace, f: nat, k: nat)
    requires k < |t.steps| && f < k && !(t.Accepted(k) && t.steps[k].op.Claim?)
    ensures WaitsFor(t, f, k + 1) <==> WaitsFor(t, f, k)
  {
  }

  /** Only a failure holds a pending job back, and only the latest end of a lease counts: a job that was
    never claimed, or whose last lease was reclaimed, is eligible at once. */
  lemma {:induction false} WaitsOnlyAfterFailure(t: Trace, k: nat)
    requires t.Valid() && k <= |t.steps| && t.JobAt(k).status.Pending?
    ensures t.JobAt(k).retryAfter.Some? <==> exists f: nat :: WaitsFor(t, f, k)
  {
    if k > 0 {
      var i := k - 1;
      var pending := t.JobAt(i).status.Pending?;
      if pending {
        WaitsOnlyAfterFailure(t, i);
        WaitKept(t, i);
      } else {
        WaitSet(t, i);
        if t.steps[i].op.FailUpdate? {
          assert WaitsFor(t, i, k);
        }
      }
      forall f: nat | f < i
        ensures WaitsFor(t, f, k) <==> pending && WaitsFor(t, f, i)
      {
        WaitsOneMore(t, f, i);
        if !pending {
          LeasedHasNoWait(t, f, i);
        }
      }
    }
  }

  /** A job that waits for a failure is eligible exactly from the failure's time plus its backoff on, which
    for an issued lease is the backoff of the count that the failure incremented. */
  lemma EligibleAfterBackoff(t: Trace, f: nat, k: nat, w: WorkerId, v: nat, now: Time) returns (r: nat)
    requires t.Valid() && k <= |t.steps| && t.JobAt(k).status.Pending? && WaitsFor(t, f, k) && t.Fails(f, w, v)
    ensures ReadsFor(t, r, f, w, v) && (Issued(t, f) ==> t.JobAt(r).retryCount == t.JobAt(f).retryCount)
    ensures Eligible(t.JobAt(k), now) <==> t.steps[f].at + BackoffAt(t, r) * SECOND <= now
  {
    r := ReadNeverStale(t, f, w, v);
    WaitingRowUnchanged(t, f, k);
  }

  /** The moment of the last of the first k statements, or of the insert. */
  function Now(t: Trace, k: nat): Time
    requires k <= |t.steps|
  {
    if k == 0 then t.origin.createdAt else t.steps[k - 1].at
  }

  predicate IssuedAt(t: Trace, k: nat) {
    t.Accepted(k) && t.steps[k].op.FailUpdate? ==> Issued(t, k)
  }

  /** The accepted failures among the first k statements name leases granted before their reads.
    Nothing is asked of reports that are refused. */
  predicate AllIssued(t: Trace, k: nat) {
    forall i :: 0 <= i < k ==> IssuedAt(t, i)
  }

  /** No row gets ahead of the sum of the delays its failures earned. */
  predicate OnSchedule(t: Trace, k: nat)
    requires k <= |t.steps| && SaneRetries(t.cfg)
  {
    var j := t.JobAt(k);
    var due := t.origin.createdAt + TotalDelay(t.cfg, j.retryCount);
    match j.status
    case Pending => due <= Now(t, k) || (j.retryAfter.Some? && due <= j.retryAfter.value)
    case DeadLetter => j.retryCount > 0 && t.origin.createdAt + TotalDelay(t.cfg, j.retryCount - 1) <= Now(t, k)
    case Cancelled => true
    case _ => due <= Now(t, k)
  }

  lemma ScheduleAfterFailure(t: Trace, k: nat, w: WorkerId, v: nat)
    requires t.Valid() && SaneRetries(t.cfg) && t.Fails(k, w, v) && Issued(t, k) && OnSchedule(t, k)
    ensures OnSchedule(t, k + 1)
  {
    assert Now(t, k) <= t.steps[k].at;
    RetryAfterFailure(t, k, w, v);
  }

  lemma ScheduleOtherwise(t: Trace, k: nat)
    requires t.Valid() && k < |t.steps| && !(t.Accepted(k) && t.steps[k].op.FailUpdate?)
    requires SaneRetries(t.cfg) && OnSchedule(t, k)
    ensures OnSchedule(t, k + 1)
  {
    assert Now(t, k) <= t.steps[k].at;
  }

  lemma {:induction false} ScheduleInvariant(t: Trace, k: nat)
    requires t.Valid() && SaneRetries(t.cfg) && k <= |t.steps| && AllIssued(t, k)
    ensures OnSchedule(t, k)
  {
    if k > 0 {
      var i := k - 1;
      ScheduleInvariant(t, i);
      assert IssuedAt(t, i);
      var op := t.steps[i].op;
      if t.Accepted(i) && op.FailUpdate? {
        var c := t.At(i).calls[op.call];
        ScheduleAfterFailure(t, i, c.worker, c.version);
      } else {
        ScheduleOtherwise(t, i);
      }
    }
  }

  /** A job that was inserted at time T is dead-lettered no sooner than T plus the sum of the minimum
    delays after all its failures but the last. */
  lemma TimeToDeadLetter(t: Trace, k: nat)
    requires t.Valid() && SaneRetries(t.cfg) && 0 < k <= |t.steps| && AllIssued(t, k)
    requires t.JobAt(k).status.DeadLetter?
    ensures t.origin.createdAt + TotalDelay(t.cfg, Limit(t.origin) - 1) <= t.steps[k - 1].at
  {
    ScheduleInvariant(t, k);
    DeadLetterExactly(t, k);
    GrantConservation(t, k);
  }
}
