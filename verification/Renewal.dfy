/** Lease renewal: what it does as the system is wired, and what it would do for a running job. */
module Renewal {
  import opened Jobs
  import opened Traces
  import opened Leases
  import opened History

  /** Nothing in the system calls MarkJobRunning. */
  predicate AsWired(t: Trace) {
    forall k :: 0 <= k < |t.steps| ==> !t.steps[k].op.MarkRunning?
  }

  lemma {:induction false} NeverRunning(t: Trace, k: nat)
    requires AsWired(t) && k <= |t.steps| && t.Valid()
    ensures !t.JobAt(k).status.Running?
  {
    if k > 0 {
      NeverRunning(t, k - 1);
    }
  }

  /** As wired, no row is ever RUNNING and every renewal is refused, so a job can be taken back exactly when
    it is leased and a lease length has passed since its claim, however long its worker is at it. */
  lemma RenewalsRefused(t: Trace, k: nat)
    requires t.Valid() && AsWired(t) && k < |t.steps|
    ensures t.steps[k].op.Renew? ==> !t.Accepted(k)
    ensures t.steps[k].op.Reclaim? ==>
              (t.Accepted(k) <==> exists p: nat :: p < k && HasOpenGrant(t, p, k)
                                                   && t.steps[p].at + t.cfg.leaseSecs * SECOND < t.steps[k].at)
  {
    NeverRunning(t, k);
    if t.steps[k].op.Reclaim? {
      ReclaimAcceptedIff(t, k);
      forall p: nat | p < k && HasOpenGrant(t, p, k)
        ensures RunOut(t, p, k, t.steps[k].at) <==> t.steps[p].at + t.cfg.leaseSecs * SECOND < t.steps[k].at
      {
        RunOutAsWired(t, p, k, t.steps[k].at);
      }
    }
  }

  lemma OnlyGrantExtends(t: Trace, p: nat, x: nat, w: WorkerId, v: nat)
    requires t.Valid() && AsWired(t) && t.Grants(p, w, v) && Extends(t, x, w, v)
    ensures x == p
  {
    NeverRunning(t, x);
    GrantedOnce(t, p, x, w, w, v);
  }

  lemma RunOutAsWired(t: Trace, p: nat, k: nat, now: Time)
    requires t.Valid() && AsWired(t) && p < k <= |t.steps| && HasOpenGrant(t, p, k)
    ensures RunOut(t, p, k, now) <==> t.steps[p].at + t.cfg.leaseSecs * SECOND < now
  {
    var w, v := t.steps[p].op.worker, t.JobAt(p + 1).version;
    assert Extends(t, p, w, v);
    forall x | p <= x < k && Extends(t, x, w, v)
      ensures x == p
    {
      OnlyGrantExtends(t, p, x, w, v);
    }
  }

  /** Statement m, after the grant p of version v to w, marked that lease's job running. */
  predicate StartedAt(t: Trace, p: nat, m: nat, w: WorkerId, v: nat) {
    p < m && t.Accepted(m) && t.steps[m].op == MarkRunning(w, v)
  }

  lemma StatusWhileOpen(t: Trace, p: nat, k: nat, w: WorkerId, v: nat)
    requires p < k < |t.steps| && OpenGrant(t, p, k, w, v) && !EndsLease(t, k, v)
    ensures OpenGrant(t, p, k + 1, w, v)
    ensures t.JobAt(k + 1).status.Running? <==> t.JobAt(k).status.Running? || StartedAt(t, p, k, w, v)
  {
    OpenGrantHolds(t, p, k, w, v);
  }

  /** While its grant is open, a job is RUNNING exactly if it was marked so under that grant. */
  lemma {:induction false} RunningIffStarted(t: Trace, p: nat, k: nat, w: WorkerId, v: nat)
    requires k <= |t.steps| && OpenGrant(t, p, k, w, v)
    ensures t.JobAt(k).status.Running? <==> exists m: nat :: m < k && StartedAt(t, p, m, w, v)
    decreases k
  {
    if p < k - 1 {
      var i := k - 1;
      assert !EndsLease(t, i, v);
      RunningIffStarted(t, p, i, w, v);
      StatusWhileOpen(t, p, i, w, v);
    }
  }

  /** A renewal is accepted exactly if its worker's grant of that version is open, expired or not, and was
    marked running. */
  lemma RenewalAcceptedIff(t: Trace, k: nat, w: WorkerId, v: nat)
    requires t.Valid() && k < |t.steps| && t.steps[k].op == Renew(w, v)
    ensures t.Accepted(k)
            <==> exists p: nat, m: nat :: m < k && OpenGrant(t, p, k, w, v) && StartedAt(t, p, m, w, v)
  {
    HeldIffOpen(t, k, w, v);
    if p: nat :| OpenGrant(t, p, k, w, v) {
      RunningIffStarted(t, p, k, w, v);
      forall q: nat | OpenGrant(t, q, k, w, v)
        ensures q == p
      {
        GrantedOnce(t, p, q, w, w, v);
      }
    }
  }

  /** Statement x keeps the lease granted at p alive: the grant itself, or a renewal after the start m. */
  predicate Refreshes(t: Trace, p: nat, m: nat, x: nat, w: WorkerId, v: nat)
    requires x < |t.steps|
  {
    x == p || (m < x && t.steps[x].op == Renew(w, v))
  }

  /** At statement k the latest refresh is no more than a lease length ago. */
  predicate FreshAt(t: Trace, p: nat, m: nat, k: nat, w: WorkerId, v: nat)
    requires k < |t.steps|
  {
    exists x :: p <= x < k && Refreshes(t, p, m, x, w, v) && t.steps[k].at <= t.steps[x].at + t.cfg.leaseSecs * SECOND
  }

  predicate KeptAlive(t: Trace, p: nat, m: nat, q: nat, w: WorkerId, v: nat)
    requires q <= |t.steps|
  {
    forall k :: m < k < q ==> FreshAt(t, p, m, k, w, v)
  }

  /** Between statements m and q the holder does not report and nobody cancels. */
  predicate Undisturbed(t: Trace, m: nat, q: nat, w: WorkerId, v: nat)
    requires q <= |t.steps|
  {
    forall r :: m < r < q ==> !t.Results(r, w, v) && !t.Cancels(r)
  }

  /** Worker w holds version v, its job is running, and the expiry covers every refresh so far. */
  predicate RunsSafely(t: Trace, p: nat, m: nat, k: nat, w: WorkerId, v: nat)
    requires k <= |t.steps|
  {
    var j := t.JobAt(k);
    && Fenced(j, w, v) && j.status.Running? && j.expiresAt.Some?
    && forall x :: p <= x < k && Refreshes(t, p, m, x, w, v) ==>
         t.steps[x].at + t.cfg.leaseSecs * SECOND <= j.expiresAt.value
  }

  lemma RunsAtStart(t: Trace, p: nat, m: nat, w: WorkerId, v: nat)
    requires t.Valid() && p < m && t.Grants(p, w, v) && t.Accepted(m) && t.steps[m].op == MarkRunning(w, v)
    ensures RunsSafely(t, p, m, m + 1, w, v)
  {
    OwnedUntilSurrender(t, p, m, w, v);
    if r :| p < r < m && Surrenders(t, p, r, w, v) {
      VersionsGrow(t, r + 1, m);
      VersionsGrow(t, p + 1, r);
    }
    assert Extends(t, p, w, v);
  }

  lemma RunsOn(t: Trace, p: nat, m: nat, k: nat, w: WorkerId, v: nat)
    requires t.Valid() && p < m < k < |t.steps| && RunsSafely(t, p, m, k, w, v)
    requires !t.Results(k, w, v) && !t.Cancels(k)
    requires FreshAt(t, p, m, k, w, v)
    ensures RunsSafely(t, p, m, k + 1, w, v)
  {
    var j := t.JobAt(k);
    assert t.steps[k].at <= j.expiresAt.value;
    forall x | p <= x < k + 1 && Refreshes(t, p, m, x, w, v)
      ensures t.JobAt(k + 1).expiresAt.Some? &&
              t.steps[x].at + t.cfg.leaseSecs * SECOND <= t.JobAt(k + 1).expiresAt.value
    {
      assert t.steps[x].at <= t.steps[k].at;
    }
  }

  lemma {:induction false} RunsUntilResult(t: Trace, p: nat, m: nat, k: nat, w: WorkerId, v: nat)
    requires t.Valid() && p < m < k <= |t.steps| && t.Grants(p, w, v)
    requires t.Accepted(m) && t.steps[m].op == MarkRunning(w, v)
    requires KeptAlive(t, p, m, k, w, v)
    requires Undisturbed(t, m, k, w, v)
    ensures RunsSafely(t, p, m, k, w, v)
    decreases k
  {
    if k == m + 1 {
      RunsAtStart(t, p, m, w, v);
    } else {
      RunsUntilResult(t, p, m, k - 1, w, v);
      RunsOn(t, p, m, k - 1, w, v);
    }
  }

  /** With MarkJobRunning in use, a holder that becomes RUNNING and renews at gaps of at most a lease
    length is not reclaimed before it reports or the job is cancelled. */
  lemma RenewingHolderNotReclaimed(t: Trace, p: nat, m: nat, q: nat, w: WorkerId, v: nat)
    requires t.Valid() && p < m < q < |t.steps| && t.Grants(p, w, v)
    requires t.Accepted(m) && t.steps[m].op == MarkRunning(w, v)
    requires KeptAlive(t, p, m, q + 1, w, v)
    requires Undisturbed(t, m, q, w, v)
    ensures Held(t.JobAt(q), w, v)
    ensures t.steps[q].op.Reclaim? ==> !t.Accepted(q)
    ensures t.steps[q].op == Renew(w, v) ==> t.Accepted(q)
  {
    RunsUntilResult(t, p, m, q, w, v);
    assert FreshAt(t, p, m, q, w, v);
  }
}
