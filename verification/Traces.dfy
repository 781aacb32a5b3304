/** Everything that can happen to one row of the jobs table.

  A trace is any sequence of statements issued against one row by any number of schedulers, workers
  and clients: reports may be late, repeated, reordered or made up, and any number of leaders may
  claim and reclaim. A statement whose guard does not hold changes nothing. A failure report is two
  statements, a read of the retry count and later a guarded update, so others can come between. */
module Traces {
  import opened Backoff
  import opened Jobs

  /** One statement. `raw` and `pick` are the conversion result and random number its backoff uses. */
  datatype Op =
    | Claim(worker: WorkerId)
    | MarkRunning(worker: WorkerId, version: nat)
    | Renew(worker: WorkerId, version: nat)
    | Complete(worker: WorkerId, version: nat)
    | ReadRetry(call: nat, worker: WorkerId, version: nat, raw: int64, pick: nat)
    | FailUpdate(call: nat)
    | Reclaim
    | Cancel(tenant: string)

  /** A failure report between its two statements. `versionAtRead` is a history variable: the lease
    version the row had when the retry count was read. */
  datatype FailCall = FailCall(worker: WorkerId, version: nat, read: nat, backoffSecs: int, versionAtRead: nat)

  datatype Row = Row(job: Job, calls: map<nat, FailCall>)

  datatype Stamp = Stamp(op: Op, at: Time)

  predicate Accepts(r: Row, op: Op, now: Time) {
    match op
    case Claim(_) => Eligible(r.job, now)
    case MarkRunning(w, v) => Fenced(r.job, w, v) && r.job.status.Dispatched?
    case Renew(w, v) => Fenced(r.job, w, v) && r.job.status.Running?
    case Complete(w, v) => Held(r.job, w, v)
    case ReadRetry(_, _, _, _, _) => true
    case FailUpdate(c) => c in r.calls && Held(r.job, r.calls[c].worker, r.calls[c].version)
    case Reclaim => Expired(r.job, now)
    case Cancel(tenant) => r.job.tenant == tenant && !Terminal(r.job)
  }

  function Effect(cfg: Config, r: Row, op: Op, now: Time): Row
    requires Accepts(r, op, now)
  {
    match op
    case Claim(w) => r.(job := Claimed(r.job, w, cfg.leaseSecs, now))
    case MarkRunning(_, _) => r.(job := Started(r.job))
    case Renew(_, _) => r.(job := Renewed(r.job, cfg.leaseSecs, now))
    case Complete(_, _) => r.(job := Completed(r.job))
    case ReadRetry(c, w, v, raw, pick) =>
      var secs := WholeSeconds(CalculateBackoff(r.job.retryCount, cfg.retryBase, cfg.retryMax, raw, pick));
      r.(calls := r.calls[c := FailCall(w, v, r.job.retryCount, secs, r.job.version)])
    case FailUpdate(c) => Row(Failed(r.job, r.calls[c].backoffSecs, now), r.calls - {c})
    case Reclaim => r.(job := Reclaimed(r.job))
    case Cancel(_) => r.(job := CancelledBy(r.job))
  }

  function Step(cfg: Config, r: Row, op: Op, now: Time): Row {
    if Accepts(r, op, now) then Effect(cfg, r, op, now) else r
  }

  datatype Trace = Trace(cfg: Config, origin: Job, steps: seq<Stamp>) {

    /** Inserted by CreateJob, and the database clock never goes back. */
    predicate Valid() {
      && origin == Origin(origin)
      && (|steps| > 0 ==> origin.createdAt <= steps[0].at)
      && forall i, k :: 0 <= i <= k < |steps| ==> steps[i].at <= steps[k].at
    }

    /** The row after the first k statements. */
    function At(k: nat): Row
      requires k <= |steps|
    {
      if k == 0 then Row(origin, map[]) else Step(cfg, At(k - 1), steps[k - 1].op, steps[k - 1].at)
    }

    function JobAt(k: nat): Job
      requires k <= |steps|
    {
      At(k).job
    }

    predicate Accepted(k: nat) {
      k < |steps| && Accepts(At(k), steps[k].op, steps[k].at)
    }

    /** Statement k granted lease version v to worker w. */
    predicate Grants(k: nat, w: WorkerId, v: nat) {
      Accepted(k) && steps[k].op == Claim(w) && JobAt(k + 1).version == v
    }

    predicate Succeeds(k: nat, w: WorkerId, v: nat) {
      Accepted(k) && steps[k].op == Complete(w, v)
    }

    predicate Fails(k: nat, w: WorkerId, v: nat) {
      Accepted(k) && steps[k].op.FailUpdate? && At(k).calls[steps[k].op.call].worker == w
      && At(k).calls[steps[k].op.call].version == v
    }

    /** Statement k is an accepted result, of either kind, reported by worker w under version v. */
    predicate Results(k: nat, w: WorkerId, v: nat) {
      Succeeds(k, w, v) || Fails(k, w, v)
    }

    predicate Reclaims(k: nat, v: nat) {
      Accepted(k) && steps[k].op.Reclaim? && JobAt(k).version == v
    }

    predicate Cancels(k: nat) {
      Accepted(k) && steps[k].op.Cancel?
    }
  }

  /** The row semantics looks only at earlier statements. */
  lemma {:induction false} PrefixAgrees(t: Trace, t': Trace, n: nat)
    requires t.cfg == t'.cfg && t.origin == t'.origin && t.steps <= t'.steps && n <= |t.steps|
    ensures t.At(n) == t'.At(n)
  {
    if n > 0 {
      PrefixAgrees(t, t', n - 1);
    }
  }

  /** A valid trace followed by one later statement. */
  lemma TraceExtends(t: Trace, s: Stamp, t': Trace)
    requires t.Valid() && t' == t.(steps := t.steps + [s])
    requires t.origin.createdAt <= s.at && forall i :: 0 <= i < |t.steps| ==> t.steps[i].at <= s.at
    ensures t'.Valid() && t'.At(|t'.steps|) == Step(t.cfg, t.At(|t.steps|), s.op, s.at)
  {
    PrefixAgrees(t, t', |t.steps|);
  }

  /** Statement r read for report c, and no update of that report has been accepted since. */
  predicate Unused(t: Trace, r: nat, k: nat, c: nat) {
    && r < k <= |t.steps| && t.steps[r].op.ReadRetry? && t.steps[r].op.call == c
    && forall i :: r < i < k ==> !(t.Accepted(i) && t.steps[i].op == FailUpdate(c))
  }

  lemma UnusedOneMore(t: Trace, r: nat, k: nat, c: nat)
    requires k < |t.steps|
    ensures Unused(t, r, k + 1, c)
            <==> || (r == k && t.steps[k].op.ReadRetry? && t.steps[k].op.call == c)
                 || (Unused(t, r, k, c) && !(t.Accepted(k) && t.steps[k].op == FailUpdate(c)))
  {
    var next := k + 1;
    if Unused(t, r, next, c) && r < k {
      assert forall i :: r < i < k ==> !(t.Accepted(i) && t.steps[i].op == FailUpdate(c));
    }
  }

  /** A report can be applied after its read, and until it has been applied: each read serves one failure. */
  lemma {:induction false} CallIff(t: Trace, k: nat, c: nat)
    requires k <= |t.steps|
    ensures c in t.At(k).calls <==> exists r: nat :: Unused(t, r, k, c)
  {
    if k > 0 {
      var i := k - 1;
      CallIff(t, i, c);
      CallStep(t.cfg, t.At(i), t.steps[i].op, t.steps[i].at, c);
      forall r: nat
        ensures Unused(t, r, k, c)
                <==> || (r == i && t.steps[i].op.ReadRetry? && t.steps[i].op.call == c)
                     || (Unused(t, r, i, c) && !(t.Accepted(i) && t.steps[i].op == FailUpdate(c)))
      {
        UnusedOneMore(t, r, i, c);
      }
      if t.steps[i].op.ReadRetry? && t.steps[i].op.call == c {
        assert Unused(t, i, k, c);
      } else if r: nat :| Unused(t, r, i, c) {
        assert Unused(t, r, k, c) <==> !(t.Accepted(i) && t.steps[i].op == FailUpdate(c));
        assert forall q: nat :: Unused(t, q, k, c) ==> Unused(t, q, i, c);
      }
    }
  }

  lemma CallStep(cfg: Config, r: Row, op: Op, now: Time, c: nat)
    ensures c in Step(cfg, r, op, now).calls
            <==> || (op.ReadRetry? && op.call == c)
                 || (c in r.calls && !(Accepts(r, op, now) && op == FailUpdate(c)))
  {
  }
}
