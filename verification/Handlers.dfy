/** Two request handlers of the scheduler, run with nobody interfering. */
module Handlers {
  import opened Backoff
  import opened Jobs
  import opened Traces
  import opened Store

  datatype Submission = QuotaReached | Queued(id: JobId)

  /** Checks the tenant's quota, then creates the job. Alone, it keeps every tenant within the quota;
    a request id that is taken yields the job that has it. */
  method SubmitJob(store: JobStore, newId: JobId, requestId: string, tenant: string, priority: string, maxRetries: int,
                   quota: int, now: Time)
    returns (result: Submission)
    requires store.Valid() && newId !in store.jobs
    modifies store
    ensures store.Valid()
    ensures result.QuotaReached? <==> |ActiveIds(old(store.jobs), tenant)| >= quota
    ensures result.QuotaReached? ==> store.jobs == old(store.jobs)
    ensures result.Queued? ==> result.id in store.jobs && store.jobs[result.id].requestId == requestId
    ensures result.Queued? ==> forall id :: id in old(store.jobs) ==>
                                              id in store.jobs && store.jobs[id] == old(store.jobs)[id]
    ensures result.Queued? ==> |ActiveIds(store.jobs, tenant)| <= quota
    ensures result.Queued? ==>
              || store.jobs == old(store.jobs)
              || (result.id == newId
                  && store.jobs == old(store.jobs)[newId := Job(requestId, tenant, priority, maxRetries, now,
                                                                Pending, 0, None, None, 0, None, None)])
    ensures result.Queued? && (forall id :: id in old(store.jobs) ==> old(store.jobs)[id].requestId != requestId)
            ==> newId in store.jobs
    ensures forall id :: id in ActiveIds(old(store.jobs), tenant) <==>
                           id in old(store.jobs) && old(store.jobs)[id].tenant == tenant
                           && !(old(store.jobs)[id].status.Succeeded? || old(store.jobs)[id].status.Cancelled?
                                || old(store.jobs)[id].status.DeadLetter?)
    ensures forall other :: other != tenant ==> ActiveIds(store.jobs, other) == ActiveIds(old(store.jobs), other)
  {
    var count := |ActiveIds(store.jobs, tenant)|;
    if count >= quota {
      return QuotaReached;
    }
    ghost var before := store.jobs;
    var id := store.CreateJob(newId, requestId, tenant, priority, maxRetries, now);
    result := Queued(id);
    if store.jobs != before {
      assert ActiveIds(store.jobs, tenant) == ActiveIds(before, tenant) + {newId};
    }
  }

  /** Accepts a result from the current holder only; a failure that exhausts the job asks for an autopsy. */
  method ReportResult(store: JobStore, id: JobId, worker: WorkerId, version: nat, success: bool, reason: string,
                      raw: int64, pick: nat, now: Time)
    returns (accepted: bool, autopsy: bool)
    requires store.Valid()
    modifies store
    ensures store.Valid()
    ensures accepted == (id in old(store.jobs) && Held(old(store.jobs)[id], worker, version))
    ensures !accepted ==> store.jobs == old(store.jobs) && store.audit == old(store.audit)
    ensures accepted ==> forall k :: k in store.jobs <==> k in old(store.jobs)
    ensures accepted ==> forall k :: k in store.jobs && k != id ==> store.jobs[k] == old(store.jobs)[k]
    ensures accepted && success ==> store.jobs[id].status.Succeeded? && Terminal(store.jobs[id])
    ensures accepted && success ==>
              store.audit == old(store.audit) + [Transition(id, "RUNNING", "SUCCEEDED", worker, "job completed")]
    ensures accepted && !success ==>
              var secs := WholeSeconds(CalculateBackoff(old(store.jobs)[id].retryCount, store.cfg.retryBase,
                                                        store.cfg.retryMax, raw, pick));
              && FailedRow(old(store.jobs), store.jobs, id, now + secs * 1_000_000)
              && FailedLog(old(store.jobs), old(store.audit), store.audit, id, worker, reason)
    ensures accepted && !success ==>
              && store.jobs[id].retryCount == old(store.jobs)[id].retryCount + 1
              && store.jobs[id].worker.None? && !Leased(store.jobs[id])
    ensures autopsy <==> accepted && !success && old(store.jobs)[id].retryCount + 1 >= old(store.jobs)[id].maxRetries
    ensures autopsy <==> accepted && store.jobs[id].status.DeadLetter?
  {
    if success {
      accepted := store.CompleteJob(id, worker, version, now);
      autopsy := false;
    } else {
      accepted := store.FailJob(id, worker, version, reason, raw, pick, now);
      autopsy := accepted && store.jobs[id].status == DeadLetter;
    }
  }
}
