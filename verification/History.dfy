/** When each guarded statement is accepted, told by what happened to the job before it.

  The guards read columns; these theorems say what the columns stand for, in terms of the statements
  accepted so far and their times. */
module History {
  import opened Jobs
  import opened Traces
  import opened Leases
  import opened Accounting

  /** No completion and no cancellation so far, and fewer failures than max(1, max_retries). */
  predicate Unfinished(t: Trace, k: nat)
    requires k <= |t.steps|
  {
    && Count(t, k, Completions) == 0 && Count(t, k, Kind.Cancels) == 0
    && Count(t, k, Failures) < if t.origin.maxRetries > 1 then t.origin.maxRetries else 1
  }

  lemma {:induction false} CancelledIff(t: Trace, k: nat)
    requires k <= |t.steps| && t.Valid()
    ensures t.JobAt(k).status.Cancelled? <==> Count(t, k, Kind.Cancels) > 0
  {
    if k > 0 {
      CancelledIff(t, k - 1);
      CountStep(t, k - 1, k, Kind.Cancels);
    }
  }

  /** A job is in one of the three final states exactly when its history has finished it. */
  lemma UnfinishedIff(t: Trace, k: nat)
    requires t.Valid() && k <= |t.steps|
    ensures var s := t.JobAt(k).status;
            && (Unfinished(t, k) <==> s.Pending? || s.Dispatched? || s.Running?)
            && (s.Succeeded? <==> Count(t, k, Completions) == 1)
            && (s.Cancelled? <==> Count(t, k, Kind.Cancels) > 0)
  {
    CancelledIff(t, k);
    DeadLetterExactly(t, k);
    GrantConservation(t, k);
  }

  /** A cancellation is accepted exactly if it comes from the job's tenant before the job has finished,
    waiting, leased or running. */
  lemma CancelAcceptedIff(t: Trace, k: nat, tenant: string)
    requires t.Valid() && k < |t.steps| && t.steps[k].op == Cancel(tenant)
    ensures t.Accepted(k) <==> tenant == t.origin.tenant && Unfinished(t, k)
  {
    UnfinishedIff(t, k);
    RowInvariant(t, k);
  }

  /** Some worker's grant is still open before statement k. */
  predicate InLease(t: Trace, k: nat) {
    exists p: nat :: p < k && k <= |t.steps| && HasOpenGrant(t, p, k)
  }

  predicate HasOpenGrant(t: Trace, p: nat, k: nat)
    requires p < k <= |t.steps|
  {
    t.steps[p].op.Claim? && OpenGrant(t, p, k, t.steps[p].op.worker, t.JobAt(p + 1).version)
  }

  lemma InLeaseIff(t: Trace, k: nat)
    requires t.Valid() && k <= |t.steps|
    ensures InLease(t, k) <==> Leased(t.JobAt(k))
  {
    if Leased(t.JobAt(k)) {
      RowInvariant(t, k);
      var w, v := t.JobAt(k).worker.value, t.JobAt(k).version;
      var p := HolderHasOpenGrant(t, k, w, v);
      assert HasOpenGrant(t, p, k);
    } else if p: nat :| p < k && HasOpenGrant(t, p, k) {
      OpenGrantHolds(t, p, k, t.steps[p].op.worker, t.JobAt(p + 1).version);
    }
  }

  /** The backoff of the last failure, if no claim has come since, is over by then. */
  predicate WaitOver(t: Trace, k: nat, now: Time)
    requires k <= |t.steps|
  {
    forall f :: 0 <= f < k && WaitsFor(t, f, k) ==>
                  t.steps[f].at + t.At(f).calls[t.steps[f].op.call].backoffSecs * SECOND <= now
  }

  lemma WaitOverIff(t: Trace, k: nat, now: Time)
    requires t.Valid() && k <= |t.steps| && t.JobAt(k).status.Pending?
    ensures WaitOver(t, k, now) <==> t.JobAt(k).retryAfter.None? || t.JobAt(k).retryAfter.value <= now
  {
    WaitsOnlyAfterFailure(t, k);
    forall f: nat | WaitsFor(t, f, k)
      ensures t.JobAt(k).retryAfter
              == Some(t.steps[f].at + t.At(f).calls[t.steps[f].op.call].backoffSecs * SECOND)
    {
      WaitingRowUnchanged(t, f, k);
    }
  }

  /** A claim is accepted exactly if the job is unfinished, no lease of it is open, and it does not wait for
    the backoff of a failure: a new or reclaimed job can be claimed at once. */
  lemma ClaimAcceptedIff(t: Trace, k: nat)
    requires t.Valid() && k < |t.steps| && t.steps[k].op.Claim?
    ensures t.Accepted(k) <==> Unfinished(t, k) && !InLease(t, k) && WaitOver(t, k, t.steps[k].at)
  {
    UnfinishedIff(t, k);
    InLeaseIff(t, k);
    if t.JobAt(k).status.Pending? {
      WaitOverIff(t, k, t.steps[k].at);
    }
  }

  /** The open lease granted at p has run out at `now`: a lease length has passed since its grant and since
    every renewal of it that was accepted. */
  predicate RunOut(t: Trace, p: nat, k: nat, now: Time)
    requires p < k <= |t.steps| && t.steps[p].op.Claim?
  {
    forall x :: p <= x < k && Extends(t, x, t.steps[p].op.worker, t.JobAt(p + 1).version) ==>
                  t.steps[x].at + t.cfg.leaseSecs * SECOND < now
  }

  /** The expiry of an open lease is a lease length after the latest of its grant and its renewals. */
  lemma {:induction false} ExpiryIsLatest(t: Trace, p: nat, k: nat, w: WorkerId, v: nat) returns (x: nat)
    requires t.Valid() && k <= |t.steps| && OpenGrant(t, p, k, w, v)
    ensures p <= x < k && Extends(t, x, w, v) && forall y :: x < y < k ==> !Extends(t, y, w, v)
    ensures t.JobAt(k).expiresAt == Some(t.steps[x].at + t.cfg.leaseSecs * SECOND)
    decreases k
  {
    if p == k - 1 {
      x := p;
    } else {
      var i := k - 1;
      x := ExpiryIsLatest(t, p, i, w, v);
      OpenGrantHolds(t, p, i, w, v);
      assert !EndsLease(t, i, v);
      OwnedRowStep(t.cfg, t.At(i), t.steps[i].op, t.steps[i].at, w, v);
      if Extends(t, i, w, v) {
        x := i;
      }
    }
  }

  lemma RunOutIff(t: Trace, p: nat, k: nat, now: Time)
    requires t.Valid() && p < k <= |t.steps| && HasOpenGrant(t, p, k)
    ensures Leased(t.JobAt(k)) && t.JobAt(k).expiresAt.Some?
    ensures RunOut(t, p, k, now) <==> t.JobAt(k).expiresAt.value < now
  {
    var w, v := t.steps[p].op.worker, t.JobAt(p + 1).version;
    OpenGrantHolds(t, p, k, w, v);
    var x := ExpiryIsLatest(t, p, k, w, v);
    assert forall y :: p <= y < k && Extends(t, y, w, v) ==> t.steps[y].at <= t.steps[x].at;
  }

  /** A reclaim is accepted exactly if a lease of the job is open and has run out. */
  lemma ReclaimAcceptedIff(t: Trace, k: nat)
    requires t.Valid() && k < |t.steps| && t.steps[k].op.Reclaim?
    ensures t.Accepted(k) <==> exists p: nat :: p < k && HasOpenGrant(t, p, k) && RunOut(t, p, k, t.steps[k].at)
  {
    InLeaseIff(t, k);
    forall p: nat | p < k && HasOpenGrant(t, p, k)
      ensures RunOut(t, p, k, t.steps[k].at) <==> Expired(t.JobAt(k), t.steps[k].at)
    {
      RunOutIff(t, p, k, t.steps[k].at);
    }
  }
}
