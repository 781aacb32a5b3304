/** Exactly when the unlocked read of a failure report can be stale by the time its update is accepted. */
module StaleReads {
  import opened Jobs
  import opened Traces
  import opened Leases

  /** The last statement of t is the read of report c, from worker w under version v. */
  predicate EndsWithRead(t: Trace, c: nat, w: WorkerId, v: nat) {
    && t.Valid() && |t.steps| > 0
    && var op := t.steps[|t.steps| - 1].op;
       op.ReadRetry? && op.call == c && op.worker == w && op.version == v
  }

  function Last(t: Trace): Row {
    t.At(|t.steps|)
  }

  predicate Touches(op: Op, c: nat) {
    (op.ReadRetry? || op.FailUpdate?) && op.call == c
  }

  /** t' continues t without another statement of report c. */
  predicate Continues(t: Trace, t': Trace, c: nat) {
    && t'.Valid() && t'.cfg == t.cfg && t'.origin == t.origin && t.steps <= t'.steps
    && forall i :: |t.steps| <= i < |t'.steps| ==> !Touches(t'.steps[i].op, c)
  }

  /** After t' the update of the report is accepted, although the count has changed since its read. */
  predicate StaleAfter(t: Trace, t': Trace, c: nat) {
    && Continues(t, t', c) && Accepts(Last(t'), FailUpdate(c), 0)
    && Last(t').job.retryCount != Last(t).job.retryCount
  }

  function Pends(j: Job): nat {
    if j.status.Pending? then 1 else 0
  }

  /** What has happened to a row by the time its retry count has grown. */
  predicate Progress(j: Job, j': Job) {
    && j'.maxRetries == j.maxRetries && j'.version >= j.version && j'.retryCount >= j.retryCount
    && (Terminal(j) ==> j' == j)
    && if j'.retryCount == j.retryCount
       then Leased(j') ==> j'.version >= j.version + Pends(j)
       else j'.status.DeadLetter?
            || (!Exhausted(j) && j'.version >= j.version + Pends(j)
                && (Leased(j') ==> j'.version > j.version + Pends(j)))
  }

  lemma ProgressStep(cfg: Config, j: Job, r: Row, op: Op, now: Time)
    requires Progress(j, r.job)
    ensures Progress(j, Step(cfg, r, op, now).job)
  {
  }

  lemma {:induction false} ProgressAlways(t: Trace, n: nat, k: nat)
    requires n <= k <= |t.steps|
    ensures Progress(t.JobAt(n), t.JobAt(k))
    decreases k
  {
    if n < k {
      ProgressAlways(t, n, k - 1);
      ProgressStep(t.cfg, t.JobAt(n), t.At(k - 1), t.steps[k - 1].op, t.steps[k - 1].at);
    }
  }

  lemma {:induction false} CallKept(t: Trace, n: nat, k: nat, c: nat)
    requires n <= k <= |t.steps| && c in t.At(n).calls
    requires forall i :: n <= i < k ==> !Touches(t.steps[i].op, c)
    ensures c in t.At(k).calls && t.At(k).calls[c] == t.At(n).calls[c]
    decreases k
  {
    if n < k {
      CallKept(t, n, k - 1, c);
      assert !Touches(t.steps[k - 1].op, c);
    }
  }

  lemma ContinuedCall(t: Trace, t': Trace, c: nat, w: WorkerId, v: nat)
    requires EndsWithRead(t, c, w, v) && Continues(t, t', c)
    ensures t'.At(|t.steps|) == Last(t)
    ensures c in Last(t').calls && Last(t').calls[c].worker == w && Last(t').calls[c].version == v
  {
    PrefixAgrees(t, t', |t.steps|);
    CallKept(t', |t.steps|, |t'.steps|, c);
  }

  lemma Append(t: Trace, t': Trace, c: nat, op: Op, at: Time) returns (t'': Trace)
    requires Continues(t, t', c) && !Touches(op, c)
    requires t'.origin.createdAt <= at && forall i :: 0 <= i < |t'.steps| ==> t'.steps[i].at <= at
    ensures Continues(t, t'', c) && Last(t'') == Step(t.cfg, Last(t'), op, at)
    ensures forall i :: 0 <= i < |t''.steps| ==> t''.steps[i].at <= at
  {
    t'' := t'.(steps := t'.steps + [Stamp(op, at)]);
    TraceExtends(t', Stamp(op, at), t'');
  }

  /** A moment from which on statements can follow t. */
  function Later(t: Trace, least: Time): (at: Time)
    requires t.Valid()
    ensures least <= at && t.origin.createdAt <= at && forall i :: 0 <= i < |t.steps| ==> t.steps[i].at <= at
  {
    var end := if t.steps == [] then t.origin.createdAt else t.steps[|t.steps| - 1].at;
    if least <= end then end else least
  }

  lemma Claims(t: Trace, t': Trace, c: nat, w: WorkerId) returns (t'': Trace)
    requires Continues(t, t', c) && Last(t').job.status.Pending?
    ensures Continues(t, t'', c)
    ensures var j, j' := Last(t').job, Last(t'').job;
            Held(j', w, j.version + 1) && j'.retryCount == j.retryCount && j'.maxRetries == j.maxRetries
  {
    var j := Last(t').job;
    t'' := Append(t, t', c, Claim(w), Later(t', if j.retryAfter.Some? then j.retryAfter.value else 0));
  }

  lemma IsReclaimed(t: Trace, t': Trace, c: nat) returns (t'': Trace)
    requires Continues(t, t', c) && Leased(Last(t').job)
    ensures Continues(t, t'', c)
    ensures var j, j' := Last(t').job, Last(t'').job;
            && j'.status.Pending? && j'.version == j.version
            && j'.retryCount == j.retryCount && j'.maxRetries == j.maxRetries
  {
    RowInvariant(t', |t'.steps|);
    t'' := Append(t, t', c, Reclaim, Later(t', Last(t').job.expiresAt.value + 1));
  }

  lemma FailsOnce(t: Trace, t': Trace, c: nat) returns (t'': Trace)
    requires Continues(t, t', c) && Leased(Last(t').job) && !Exhausted(Last(t').job)
    ensures Continues(t, t'', c)
    ensures var j, j' := Last(t').job, Last(t'').job;
            j'.status.Pending? && j'.version == j.version && j'.retryCount == j.retryCount + 1
  {
    RowInvariant(t', |t'.steps|);
    var j, at := Last(t').job, Later(t', 0);
    t'' := Append(t, t', c, ReadRetry(c + 1, j.worker.value, j.version, 0, 0), at);
    t'' := Append(t, t'', c, FailUpdate(c + 1), at);
  }

  /** Claims and reclaims bring a pending row to any higher version. */
  lemma {:induction false} ClaimsUpTo(t: Trace, t': Trace, c: nat, w: WorkerId, v: nat) returns (t'': Trace)
    requires Continues(t, t', c) && Last(t').job.status.Pending? && Last(t').job.version < v
    ensures Continues(t, t'', c) && Held(Last(t'').job, w, v)
    ensures Last(t'').job.retryCount == Last(t').job.retryCount
    decreases v - Last(t').job.version
  {
    t'' := Claims(t, t', c, w);
    if Last(t'').job.version < v {
      t'' := IsReclaimed(t, t'', c);
      t'' := ClaimsUpTo(t, t'', c, w, v);
    }
  }

  lemma SomeStale(t: Trace, c: nat, w: WorkerId, v: nat) returns (t': Trace)
    requires EndsWithRead(t, c, w, v)
    requires var j := Last(t).job; !Terminal(j) && !Exhausted(j) && j.version + Pends(j) < v
    ensures StaleAfter(t, t', c)
  {
    t' := t;
    if Last(t).job.status.Pending? {
      t' := Claims(t, t', c, w);
    }
    t' := FailsOnce(t, t', c);
    t' := ClaimsUpTo(t, t', c, w, v);
    ContinuedCall(t, t', c, w, v);
  }

  /** The count a report has read can be out of date when its update is accepted exactly if the row, when
    it was read, could still fail without being dead-lettered and the report names a later lease than
    the one that would fail: the current one, or the next if there is none. No report of a lease that had
    been granted by then is among these. */
  lemma StaleReadIff(t: Trace, c: nat, w: WorkerId, v: nat)
    requires EndsWithRead(t, c, w, v)
    ensures (exists t' :: StaleAfter(t, t', c))
            <==> var j := Last(t).job; !Terminal(j) && !Exhausted(j) && j.version + Pends(j) < v
  {
    var j := Last(t).job;
    if t' :| StaleAfter(t, t', c) {
      ContinuedCall(t, t', c, w, v);
      ProgressAlways(t', |t.steps|, |t'.steps|);
    }
    if !Terminal(j) && !Exhausted(j) && j.version + Pends(j) < v {
      var t' := SomeStale(t, c, w, v);
    }
  }
}
