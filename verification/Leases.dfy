/** Who may hold a job, and whose result counts: theorems about every trace of one row. */
module Leases {
  import opened Backoff
  import opened Jobs
  import opened Traces

  /** What the columns of a row always agree on. */
  predicate RowInv(j: Job) {
    && (j.status.Pending? || j.status.DeadLetter? ==> j.worker.None? && j.expiresAt.None?)
    && (Leased(j) || j.status.Succeeded? ==> j.worker.Some? && j.expiresAt.Some?)
    && (j.worker.Some? ==> j.version > 0 && j.dispatchedAt.Some?)
    && (j.status.DeadLetter? ==> j.retryCount == Limit(j))
    && (!j.status.DeadLetter? ==> j.retryCount < Limit(j))
  }

  lemma {:induction false} RowInvariant(t: Trace, k: nat)
    requires t.Valid() && k <= |t.steps|
    ensures RowInv(t.JobAt(k)) && Origin(t.JobAt(k)) == t.origin
  {
    if k > 0 {
      RowInvariant(t, k - 1);
    }
  }

  lemma {:induction false} VersionsGrow(t: Trace, i: nat, k: nat)
    requires i <= k <= |t.steps|
    ensures t.JobAt(i).version <= t.JobAt(k).version
    ensures t.JobAt(i).version == t.JobAt(k).version && !Leased(t.JobAt(i)) ==> !Leased(t.JobAt(k))
    decreases k
  {
    if i < k {
      VersionsGrow(t, i, k - 1);
    }
  }

  /** SUCCEEDED, CANCELLED and DEAD_LETTER are never left: the whole row is frozen. */
  lemma {:induction false} TerminalForever(t: Trace, i: nat, k: nat)
    requires i <= k <= |t.steps| && Terminal(t.JobAt(i))
    ensures t.JobAt(k) == t.JobAt(i)
    decreases k
  {
    if i < k {
      TerminalForever(t, i, k - 1);
    }
  }

  /** Each lease version is granted once, hence to one worker only. */
  lemma GrantedOnce(t: Trace, p: nat, q: nat, w: WorkerId, w': WorkerId, v: nat)
    requires t.Grants(p, w, v) && t.Grants(q, w', v)
    ensures p == q && w == w'
  {
    if p < q {
      VersionsGrow(t, p + 1, q);
    } else if q < p {
      VersionsGrow(t, q + 1, p);
    }
  }

  /** The lease at stake is extended by its grant and by every accepted renewal. */
  predicate Extends(t: Trace, x: nat, w: WorkerId, v: nat) {
    t.Grants(x, w, v) || (t.Accepted(x) && t.steps[x].op == Renew(w, v))
  }

  /** The holder of version v loses it: its failure is accepted, or the reconciler takes the job back
    strictly after the expiry that the grant and all renewals so far have set. */
  predicate Surrenders(t: Trace, p: nat, r: nat, w: WorkerId, v: nat) {
    || t.Fails(r, w, v)
    || (t.Reclaims(r, v) && forall x :: p <= x < r && Extends(t, x, w, v) ==>
          t.steps[x].at + t.cfg.leaseSecs * SECOND < t.steps[r].at)
  }

  predicate OwnsRow(j: Job, w: WorkerId, v: nat) {
    Fenced(j, w, v) && !j.status.Pending? && !j.status.DeadLetter? && j.expiresAt.Some?
  }

  /** From its grant at p on, version v still belongs to w before statement k. */
  predicate Owns(t: Trace, p: nat, k: nat, w: WorkerId, v: nat)
    requires k <= |t.steps|
  {
    && OwnsRow(t.JobAt(k), w, v)
    && forall x :: p <= x < k && Extends(t, x, w, v) ==>
         t.steps[x].at + t.cfg.leaseSecs * SECOND <= t.JobAt(k).expiresAt.value
  }

  /** One statement leaves the owned row's expiry alone, renews it, or ends the lease. */
  lemma OwnedRowStep(cfg: Config, r: Row, op: Op, now: Time, w: WorkerId, v: nat)
    requires OwnsRow(r.job, w, v)
    ensures var j := Step(cfg, r, op, now).job;
            if Accepts(r, op, now) && (op.FailUpdate? || op.Reclaim?)
            then op.FailUpdate? ==> r.calls[op.call].worker == w && r.calls[op.call].version == v
            else OwnsRow(j, w, v)
                 && j.expiresAt == if Accepts(r, op, now) && op.Renew? then Some(now + cfg.leaseSecs * SECOND)
                                   else r.job.expiresAt
    ensures op.Claim? ==> !Accepts(r, op, now)
  {
  }

  /** One statement keeps the lease or ends it. */
  lemma OwnedOneMore(t: Trace, p: nat, k: nat, w: WorkerId, v: nat)
    requires t.Valid() && p < k < |t.steps| && Owns(t, p, k, w, v)
    ensures Owns(t, p, k + 1, w, v) || Surrenders(t, p, k, w, v)
  {
    assert forall x :: p <= x < k ==> t.steps[x].at <= t.steps[k].at;
    OwnedRowStep(t.cfg, t.At(k), t.steps[k].op, t.steps[k].at, w, v);
    assert t.At(k + 1) == Step(t.cfg, t.At(k), t.steps[k].op, t.steps[k].at);
  }

  lemma {:induction false} OwnedUntilSurrender(t: Trace, p: nat, k: nat, w: WorkerId, v: nat)
    requires t.Valid() && t.Grants(p, w, v) && p < k <= |t.steps|
    ensures Owns(t, p, k, w, v) || exists r :: p < r < k && Surrenders(t, p, r, w, v)
    decreases k
  {
    if k == p + 1 {
    } else {
      OwnedUntilSurrender(t, p, k - 1, w, v);
      if Owns(t, p, k - 1, w, v) {
        OwnedOneMore(t, p, k - 1, w, v);
      }
    }
  }

  /** Lease intervals never overlap: between two grants the first holder has surrendered, and its
    version is the smaller one. */
  lemma LeasesDisjoint(t: Trace, p: nat, q: nat, w: WorkerId, w': WorkerId, v: nat, v': nat)
    requires t.Valid() && p < q && t.Grants(p, w, v) && t.Grants(q, w', v')
    ensures v < v'
    ensures exists r :: p < r < q && Surrenders(t, p, r, w, v) && t.steps[p].at <= t.steps[r].at <= t.steps[q].at
  {
    VersionsGrow(t, p + 1, q);
    OwnedUntilSurrender(t, p, q, w, v);
    var r :| p < r < q && Surrenders(t, p, r, w, v);
    assert t.steps[p].at <= t.steps[r].at <= t.steps[q].at;
  }

  /** Versions are granted without gaps: before version v + 1 every smaller version was granted. */
  lemma {:induction false} VersionsGranted(t: Trace, k: nat, v: nat) returns (p: nat, w: WorkerId)
    requires t.Valid() && k <= |t.steps| && 1 <= v <= t.JobAt(k).version
    ensures p < k && t.Grants(p, w, v)
    ensures v == t.JobAt(k).version && t.JobAt(k).worker.Some? ==> t.JobAt(k).worker == Some(w)
    decreases k
  {
    assert k > 0;
    var i := k - 1;
    if t.Accepted(i) && t.steps[i].op.Claim? && t.JobAt(k).version == v {
      p, w := i, t.steps[i].op.worker;
    } else {
      p, w := VersionsGranted(t, i, v);
    }
  }

  /** Each lease version yields at most one accepted result. */
  lemma OneResultPerVersion(t: Trace, i: nat, k: nat, w: WorkerId, w': WorkerId, v: nat)
    requires t.Results(i, w, v) && t.Results(k, w', v)
    ensures i == k && w == w'
  {
    if i < k {
      VersionsGrow(t, i + 1, k);
    } else if k < i {
      VersionsGrow(t, k + 1, i);
    }
  }

  /** Each job succeeds at most once, and no result of any kind is accepted after its success. */
  lemma NoResultAfterSuccess(t: Trace, i: nat, k: nat, w: WorkerId, w': WorkerId, v: nat, v': nat)
    requires t.Succeeds(i, w, v) && t.Results(k, w', v')
    ensures k <= i && (t.Succeeds(k, w', v') ==> k == i)
  {
    if i < k {
      TerminalForever(t, i + 1, k);
    } else if k < i && t.Succeeds(k, w', v') {
      TerminalForever(t, k + 1, i);
    }
  }

  /** Statement r ends lease version v: an accepted result, a reclaim or a cancellation. */
  predicate EndsLease(t: Trace, r: nat, v: nat) {
    && t.Accepted(r) && t.JobAt(r).version == v
    && (t.steps[r].op.Complete? || t.steps[r].op.FailUpdate? || t.steps[r].op.Reclaim? || t.steps[r].op.Cancel?)
  }

  /** The grant p of version v to w is still open before statement k. */
  predicate OpenGrant(t: Trace, p: nat, k: nat, w: WorkerId, v: nat) {
    p < k && t.Grants(p, w, v) && forall r :: p < r < k ==> !EndsLease(t, r, v)
  }

  lemma {:induction false} OpenGrantHolds(t: Trace, p: nat, k: nat, w: WorkerId, v: nat)
    requires k <= |t.steps| && OpenGrant(t, p, k, w, v)
    ensures Held(t.JobAt(k), w, v)
    decreases k
  {
    if p < k - 1 {
      OpenGrantHolds(t, p, k - 1, w, v);
      assert !EndsLease(t, k - 1, v);
    }
  }

  lemma HolderHasOpenGrant(t: Trace, k: nat, w: WorkerId, v: nat) returns (p: nat)
    requires t.Valid() && k <= |t.steps| && Held(t.JobAt(k), w, v)
    ensures OpenGrant(t, p, k, w, v)
  {
    RowInvariant(t, k);
    var w';
    p, w' := VersionsGranted(t, k, v);
    forall r | p < r < k
      ensures !EndsLease(t, r, v)
    {
      VersionsGrow(t, r + 1, k);
    }
  }

  /** A worker holds a version exactly when the version was granted to it and nothing has ended that
    lease since. Time alone does not end it. */
  lemma HeldIffOpen(t: Trace, k: nat, w: WorkerId, v: nat)
    requires t.Valid() && k <= |t.steps|
    ensures Held(t.JobAt(k), w, v) <==> exists p: nat :: OpenGrant(t, p, k, w, v)
  {
    if Held(t.JobAt(k), w, v) {
      var p := HolderHasOpenGrant(t, k, w, v);
    } else if p: nat :| OpenGrant(t, p, k, w, v) {
      OpenGrantHolds(t, p, k, w, v);
    }
  }

  /** Statement k, accepted or not, is a result that worker w reports under version v. */
  predicate Reports(t: Trace, k: nat, w: WorkerId, v: nat)
    requires k < |t.steps|
  {
    match t.steps[k].op
    case Complete(w', v') => w' == w && v' == v
    case FailUpdate(c) => c in t.At(k).calls && t.At(k).calls[c].worker == w && t.At(k).calls[c].version == v
    case _ => false
  }

  /** A result is accepted while its reporter holds the lease, even an expired one, and only then. */
  lemma ResultAcceptedIff(t: Trace, k: nat, w: WorkerId, v: nat)
    requires t.Valid() && k < |t.steps| && Reports(t, k, w, v)
    ensures t.Accepted(k) <==> exists p: nat :: OpenGrant(t, p, k, w, v)
  {
    HeldIffOpen(t, k, w, v);
  }

  /** Statement r is the read that the failure update k of the same report relies on. */
  predicate ReadsFor(t: Trace, r: nat, k: nat, w: WorkerId, v: nat) {
    && r < k && t.Fails(k, w, v)
    && t.steps[r].op.ReadRetry? && t.steps[r].op.call == t.steps[k].op.call
    && t.steps[r].op.worker == w && t.steps[r].op.version == v
  }

  /** The accepted failure k names a lease that had been granted by the time its count was read. */
  predicate Issued(t: Trace, k: nat)
    requires t.Accepted(k) && t.steps[k].op.FailUpdate?
  {
    var call := t.At(k).calls[t.steps[k].op.call];
    call.version <= call.versionAtRead
  }

  /** The delay of a report whose read is statement r. */
  function BackoffAt(t: Trace, r: nat): int
    requires r < |t.steps| && t.steps[r].op.ReadRetry?
  {
    var op := t.steps[r].op;
    WholeSeconds(CalculateBackoff(t.JobAt(r).retryCount, t.cfg.retryBase, t.cfg.retryMax, op.raw, op.pick))
  }

  lemma {:induction false} CallsComeFromReads(t: Trace, k: nat, c: nat) returns (r: nat)
    requires k <= |t.steps| && c in t.At(k).calls
    ensures r < k && t.steps[r].op.ReadRetry? && t.steps[r].op.call == c
    ensures var call := t.At(k).calls[c];
            && t.steps[r].op.worker == call.worker && t.steps[r].op.version == call.version
            && call.read == t.JobAt(r).retryCount && call.versionAtRead == t.JobAt(r).version
            && call.backoffSecs == BackoffAt(t, r)
  {
    if t.steps[k - 1].op.ReadRetry? && t.steps[k - 1].op.call == c {
      r := k - 1;
    } else {
      r := CallsComeFromReads(t, k - 1, c);
    }
  }

  predicate CallInv(j: Job, c: FailCall) {
    && c.versionAtRead <= j.version
    && (c.version <= c.versionAtRead && j.version == c.version && Leased(j) ==> c.read == j.retryCount)
  }

  lemma {:induction false} CallsInvariant(t: Trace, k: nat)
    requires k <= |t.steps|
    ensures forall c :: c in t.At(k).calls ==> CallInv(t.JobAt(k), t.At(k).calls[c])
  {
    if k > 0 {
      CallsInvariant(t, k - 1);
    }
  }

  /** The unlocked read of a failure report is never stale when it matters: if the update is accepted
    and the reported lease had been granted when the read happened, the count that was read is the
    count the update increments, so the retry is delayed by the backoff of the right exponent. */
  lemma ReadNeverStale(t: Trace, k: nat, w: WorkerId, v: nat) returns (r: nat)
    requires t.Fails(k, w, v)
    ensures ReadsFor(t, r, k, w, v)
    ensures Issued(t, k) <==> v <= t.JobAt(r).version
    ensures Issued(t, k) ==> t.JobAt(r).retryCount == t.JobAt(k).retryCount
    ensures t.JobAt(k + 1) == Failed(t.JobAt(k), BackoffAt(t, r), t.steps[k].at)
  {
    CallsInvariant(t, k);
    r := CallsComeFromReads(t, k, t.steps[k].op.call);
  }

  /** A lease that is held later had been granted before statement r exactly if the row had reached its
    version by then; so a report is issued exactly if it names a lease granted before its read. */
  lemma IssuedMeansGranted(t: Trace, r: nat, k: nat, w: WorkerId, v: nat)
    requires t.Valid() && r <= k <= |t.steps| && Held(t.JobAt(k), w, v)
    ensures v <= t.JobAt(r).version <==> exists p: nat :: p < r && t.Grants(p, w, v)
  {
    RowInvariant(t, k);
    if v <= t.JobAt(r).version {
      var p, w' := VersionsGranted(t, r, v);
      var q, w'' := VersionsGranted(t, k, v);
      GrantedOnce(t, p, q, w', w'', v);
    } else if p: nat :| p < r && t.Grants(p, w, v) {
      VersionsGrow(t, p + 1, r);
    }
  }

  /** A report names version 2 before it is granted; the report of version 1 is accepted in between. */
  function StaleTrace(): Trace {
    Trace(Config(30, 0, 0), NewJob("r", "t", "HIGH", 5, 0),
          [Stamp(Claim("w"), 0), Stamp(ReadRetry(0, "w", 1, 0, 0), 0), Stamp(ReadRetry(1, "w", 2, 0, 0), 0),
           Stamp(FailUpdate(0), 0), Stamp(Claim("w"), 0), Stamp(FailUpdate(1), 0)])
  }

  lemma StaleTraceReads()
    ensures var r := StaleTrace().At(3);
            && 0 in r.calls && r.calls[0].worker == "w" && r.calls[0].version == 1 && r.calls[0].backoffSecs == 0
            && 1 in r.calls && r.calls[1] == FailCall("w", 2, 0, 0, 1)
            && Held(r.job, "w", 1) && r.job.retryCount == 0 && r.job.maxRetries == 5
  {
    var t := StaleTrace();
    assert t.At(1) == Row(Claimed(t.origin, "w", 30, 0), map[]);
    assert t.At(2).job == t.At(1).job && t.At(2).calls == map[0 := FailCall("w", 1, 0, 0, 1)];
    assert t.At(3) == Step(t.cfg, t.At(2), t.steps[2].op, 0);
  }

  lemma StaleTraceFails()
    ensures var r := StaleTrace().At(5);
            Held(r.job, "w", 2) && r.job.retryCount == 1 && 1 in r.calls && r.calls[1] == FailCall("w", 2, 0, 0, 1)
  {
    StaleTraceReads();
    var t := StaleTrace();
    var r := t.At(3);
    assert t.At(4) == Row(Failed(r.job, 0, 0), r.calls - {0});
    assert t.At(5) == Row(Claimed(t.At(4).job, "w", 30, 0), t.At(4).calls);
  }

  /** The issued-lease condition is needed: a report that names a version before it is granted can
    read a count that another failure has changed by the time its update is accepted. */
  lemma UnissuedReadCanBeStale() returns (t: Trace, k: nat)
    ensures t.Valid() && t.Fails(k, "w", 2) && !Issued(t, k)
    ensures t.At(k).calls[t.steps[k].op.call].read == 0 && t.JobAt(k).retryCount == 1
  {
    t, k := StaleTrace(), 5;
    StaleTraceFails();
  }
}
