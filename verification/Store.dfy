/** The job store: each method is one of its SQL statements, or a handler's sequence of them. */
module Store {
  import opened Backoff
  import opened Jobs
  import opened Traces

  type Table = map<JobId, Job>

  /** An audit row: the states it names are the ones the code writes, not always the real ones. */
  datatype Transition = Transition(id: JobId, from: string, to: string, worker: string, reason: string)

  function StatusName(s: Status): string {
    match s
    case Pending => "PENDING"
    case Dispatched => "DISPATCHED"
    case Running => "RUNNING"
    case Succeeded => "SUCCEEDED"
    case Cancelled => "CANCELLED"
    case DeadLetter => "DEAD_LETTER"
  }

  /** The table after one statement of the row semantics, applied to the row with this id if any. */
  function Applied(cfg: Config, jobs: Table, id: JobId, op: Op, now: Time): Table {
    if id in jobs then jobs[id := Step(cfg, Row(jobs[id], map[]), op, now).job] else jobs
  }

  predicate Takes(jobs: Table, id: JobId, op: Op, now: Time) {
    id in jobs && Accepts(Row(jobs[id], map[]), op, now)
  }

  predicate UniqueRequests(jobs: Table) {
    forall a, b :: a in jobs && b in jobs && jobs[a].requestId == jobs[b].requestId ==> a == b
  }

  /** HIGH before MEDIUM before LOW; anything else is NULL, which sorts last. */
  function Rank(priority: string): nat {
    if priority == "HIGH" then 1 else if priority == "MEDIUM" then 2 else if priority == "LOW" then 3 else 4
  }

  predicate Before(a: Job, b: Job) {
    Rank(a.priority) < Rank(b.priority) || (Rank(a.priority) == Rank(b.priority) && a.createdAt <= b.createdAt)
  }

  function EligibleIds(jobs: Table, now: Time): set<JobId> {
    set id | id in jobs && Eligible(jobs[id], now)
  }

  /** The order of the claim query puts this job first among the eligible ones. */
  predicate IsNext(jobs: Table, id: JobId, now: Time) {
    id in EligibleIds(jobs, now) && forall other :: other in EligibleIds(jobs, now) ==> Before(jobs[id], jobs[other])
  }

  /** What being first means: HIGH jobs before MEDIUM before LOW before unknown priorities, and the
    oldest among those of the same priority. */
  lemma FirstByPriorityThenAge(jobs: Table, id: JobId, other: JobId, now: Time)
    requires IsNext(jobs, id, now) && other in EligibleIds(jobs, now)
    ensures jobs[other].priority == "HIGH" ==> jobs[id].priority == "HIGH"
    ensures jobs[other].priority == "MEDIUM" ==> jobs[id].priority in {"HIGH", "MEDIUM"}
    ensures jobs[other].priority == "LOW" ==> jobs[id].priority in {"HIGH", "MEDIUM", "LOW"}
    ensures jobs[other].priority == jobs[id].priority ==> jobs[id].createdAt <= jobs[other].createdAt
  {
    assert Before(jobs[id], jobs[other]);
  }

  lemma {:induction false} SomeFirst(jobs: Table, ids: set<JobId>) returns (first: JobId)
    requires ids != {} && ids <= jobs.Keys
    ensures first in ids && forall other :: other in ids ==> Before(jobs[first], jobs[other])
    decreases |ids|
  {
    var id :| id in ids;
    if ids == {id} {
      first := id;
    } else {
      first := SomeFirst(jobs, ids - {id});
      if Before(jobs[id], jobs[first]) {
        first := id;
      }
    }
  }

  function ExpiredIds(jobs: Table, now: Time): set<JobId> {
    set id | id in jobs && Expired(jobs[id], now)
  }

  function ReclaimAll(jobs: Table, now: Time): Table {
    map id | id in jobs :: if Expired(jobs[id], now) then Reclaimed(jobs[id]) else jobs[id]
  }

  /** No id twice, and exactly the ids of the set. */
  ghost predicate Enumerates(order: seq<JobId>, ids: set<JobId>) {
    && (forall i, k :: 0 <= i < k < |order| ==> order[i] != order[k])
    && forall id :: id in order <==> id in ids
  }

  function ReclaimLog(order: seq<JobId>): (log: seq<Transition>)
    ensures |log| == |order|
  {
    if order == [] then []
    else ReclaimLog(order[..|order| - 1])
         + [Transition(order[|order| - 1], "RUNNING", "PENDING", "", "lease expired — reclaimed")]
  }

  function ReclaimEach(cfg: Config, jobs: Table, order: seq<JobId>, now: Time): Table {
    if order == [] then jobs
    else Applied(cfg, ReclaimEach(cfg, jobs, order[..|order| - 1], now), order[|order| - 1], Reclaim, now)
  }

  lemma {:induction false} ReclaimEachAt(cfg: Config, jobs: Table, order: seq<JobId>, now: Time, id: JobId)
    requires id in jobs
    ensures var each := ReclaimEach(cfg, jobs, order, now);
            id in each && each[id] == (if id in order && Expired(jobs[id], now) then Reclaimed(jobs[id]) else jobs[id])
    decreases |order|
  {
    if order != [] {
      var n := |order| - 1;
      ReclaimEachAt(cfg, jobs, order[..n], now, id);
      assert order == order[..n] + [order[n]];
      assert id in order <==> id in order[..n] || id == order[n];
    }
  }

  lemma {:induction false} ReclaimEachKeys(cfg: Config, jobs: Table, order: seq<JobId>, now: Time)
    ensures ReclaimEach(cfg, jobs, order, now).Keys == jobs.Keys
  {
    if order != [] {
      ReclaimEachKeys(cfg, jobs, order[..|order| - 1], now);
    }
  }

  /** The multi-row reclaim is the same as reclaiming the expired rows one by one, in any order. */
  lemma ReclaimRowByRow(cfg: Config, jobs: Table, order: seq<JobId>, now: Time)
    requires Enumerates(order, ExpiredIds(jobs, now))
    ensures ReclaimEach(cfg, jobs, order, now) == ReclaimAll(jobs, now)
  {
    ReclaimEachKeys(cfg, jobs, order, now);
    forall id | id in jobs
      ensures ReclaimEach(cfg, jobs, order, now)[id] == ReclaimAll(jobs, now)[id]
    {
      ReclaimEachAt(cfg, jobs, order, now, id);
      assert id in order <==> id in ExpiredIds(jobs, now);
    }
  }

  /** The from and to states that the code writes to the audit log for one statement. */
  function StateChange(cfg: Config, r: Row, op: Op, now: Time): (states: seq<(string, string)>)
    ensures |states| <= 1
  {
    if !Accepts(r, op, now) then []
    else
      match op
      case Claim(_) => [("PENDING", "DISPATCHED")]
      case MarkRunning(_, _) => [("DISPATCHED", "RUNNING")]
      case Renew(_, _) => []
      case Complete(_, _) => [("RUNNING", "SUCCEEDED")]
      case ReadRetry(_, _, _, _, _) => []
      case FailUpdate(_) =>
        [("RUNNING", if Step(cfg, r, op, now).job.status.DeadLetter? then "DEAD_LETTER" else "PENDING")]
      case Reclaim => [("RUNNING", "PENDING")]
      case Cancel(_) => [("", "CANCELLED")]
  }

  /** The audit log has grown by one row for this job for each of these state changes. */
  predicate Logs(before: seq<Transition>, after: seq<Transition>, id: JobId, states: seq<(string, string)>) {
    && |after| == |before| + |states| && before <= after
    && forall i :: 0 <= i < |states| ==>
         var row := after[|before| + i];
         row.id == id && row.from == states[i].0 && row.to == states[i].1
  }

  function StatesOf(cfg: Config, jobs: Table, id: JobId, op: Op, now: Time): seq<(string, string)> {
    if id in jobs then StateChange(cfg, Row(jobs[id], map[]), op, now) else []
  }

  lemma {:induction false} ReclaimLogAt(order: seq<JobId>, i: nat)
    requires i < |order|
    ensures ReclaimLog(order)[i] == Transition(order[i], "RUNNING", "PENDING", "", "lease expired — reclaimed")
    decreases |order|
  {
    if i < |order| - 1 {
      ReclaimLogAt(order[..|order| - 1], i);
    }
  }

  lemma EnumerateOneMore(order: seq<JobId>, ids: set<JobId>, id: JobId)
    requires Enumerates(order, ids) && id !in ids
    ensures Enumerates(order + [id], ids + {id})
    ensures ReclaimLog(order + [id]) == ReclaimLog(order) + ReclaimLog([id])
  {
    assert (order + [id])[..|order|] == order;
    assert [id][..0] == [];
  }

  /** One more failure: back in the queue until the given time, or dead-lettered at the limit. */
  predicate FailedRow(before: Table, after: Table, id: JobId, retryAt: Time) {
    && id in before
    && var j := before[id];
       var dead := j.retryCount + 1 >= j.maxRetries;
       after == before[id := j.(status := if dead then DeadLetter else Pending, retryCount := j.retryCount + 1,
                       worker := None, expiresAt := None, retryAfter := if dead then None else Some(retryAt))]
  }

  predicate FailedLog(before: Table, audit: seq<Transition>, audit': seq<Transition>, id: JobId, worker: WorkerId,
                      reason: string)
  {
    && id in before
    && var dead := before[id].retryCount + 1 >= before[id].maxRetries;
       audit' == audit + [Transition(id, "RUNNING", if dead then "DEAD_LETTER" else "PENDING", worker, reason)]
  }

  class JobStore {
    var jobs: Table
    var audit: seq<Transition>
    const cfg: Config

    ghost predicate Valid()
      reads this
    {
      UniqueRequests(jobs)
    }

    constructor (cfg: Config)
      ensures Valid() && jobs == map[] && audit == [] && this.cfg == cfg
    {
      this.cfg := cfg;
      jobs := map[];
      audit := [];
    }

    method RecordTransition(id: JobId, from: string, to: string, worker: string, reason: string)
      modifies this`audit
      ensures audit == old(audit) + [Transition(id, from, to, worker, reason)]
    {
      audit := audit + [Transition(id, from, to, worker, reason)];
    }

    /** Insert unless the request id is taken; `fresh` is the id the database would generate. The
      result is the one job that carries the request id afterwards. */
    method CreateJob(newId: JobId, requestId: string, tenant: string, priority: string, maxRetries: int, now: Time)
      returns (id: JobId)
      requires Valid() && newId !in jobs
      modifies this
      ensures Valid() && id in jobs && jobs[id].requestId == requestId
      ensures id in old(jobs) ==> jobs == old(jobs) && audit == old(audit)
      ensures id !in old(jobs) ==>
                && id == newId && forall k :: k in old(jobs) ==> old(jobs)[k].requestId != requestId
      ensures id !in old(jobs) ==>
                && jobs == old(jobs)[newId := Job(requestId, tenant, priority, maxRetries, now, Pending, 0,
                                                  None, None, 0, None, None)]
                && audit == old(audit) + [Transition(newId, "", "PENDING", "", "job created")]
    {
      if k :| k in jobs && jobs[k].requestId == requestId {
        return k;
      }
      jobs := jobs[newId := NewJob(requestId, tenant, priority, maxRetries, now)];
      RecordTransition(newId, "", "PENDING", "", "job created");
      id := newId;
    }

    /** Claims the first eligible job in queue order; none only if none is eligible. */
    method ClaimNextJob(worker: WorkerId, now: Time) returns (claimed: Option<JobId>)
      requires Valid()
      modifies this
      ensures Valid()
      ensures claimed.None? <==> EligibleIds(old(jobs), now) == {}
      ensures claimed.None? <==> forall id :: id in old(jobs) && old(jobs)[id].status.Pending? ==>
                                                old(jobs)[id].retryAfter.Some? && now < old(jobs)[id].retryAfter.value
      ensures claimed.None? ==> jobs == old(jobs) && audit == old(audit)
      ensures claimed.Some? ==>
                claimed.value in old(jobs) &&
                jobs == old(jobs)[claimed.value := old(jobs)[claimed.value].(
                                  status := Dispatched, worker := Some(worker),
                                  version := old(jobs)[claimed.value].version + 1,
                                  expiresAt := Some(now + cfg.leaseSecs * 1_000_000), dispatchedAt := Some(now))]
      ensures claimed.Some? ==>
                && IsNext(old(jobs), claimed.value, now)
                && Logs(old(audit), audit, claimed.value, StatesOf(cfg, old(jobs), claimed.value, Claim(worker), now))
                && jobs == Applied(cfg, old(jobs), claimed.value, Claim(worker), now)
                && audit == old(audit)
                            + [Transition(claimed.value, "PENDING", "DISPATCHED", worker, "claimed by worker")]
    {
      if EligibleIds(jobs, now) == {} {
        assert forall id :: id in jobs && Eligible(jobs[id], now) ==> id in EligibleIds(jobs, now);
        return None;
      }
      ghost var first := SomeFirst(jobs, EligibleIds(jobs, now));
      assert IsNext(jobs, first, now);
      var id :| id in jobs && IsNext(jobs, id, now);
      jobs := jobs[id := Claimed(jobs[id], worker, cfg.leaseSecs, now)];
      RecordTransition(id, "PENDING", "DISPATCHED", worker, "claimed by worker");
      claimed := Some(id);
    }

    method MarkJobRunning(id: JobId, worker: WorkerId, version: nat, now: Time) returns (ok: bool)
      requires Valid()
      modifies this
      ensures Valid() && ok == Takes(old(jobs), id, MarkRunning(worker, version), now)
      ensures jobs == Applied(cfg, old(jobs), id, MarkRunning(worker, version), now)
      ensures ok <==> id in old(jobs) && old(jobs)[id].worker == Some(worker) && old(jobs)[id].version == version
                      && old(jobs)[id].status.Dispatched?
      ensures jobs == if ok then old(jobs)[id := old(jobs)[id].(status := Running)] else old(jobs)
      ensures Logs(old(audit), audit, id, StatesOf(cfg, old(jobs), id, MarkRunning(worker, version), now))
      ensures audit == old(audit) + if ok then [Transition(id, "DISPATCHED", "RUNNING", worker, "job started")] else []
    {
      ok := id in jobs && jobs[id].worker == Some(worker) && jobs[id].version == version
            && jobs[id].status == Dispatched;
      if ok {
        jobs := jobs[id := jobs[id].(status := Running)];
        RecordTransition(id, "DISPATCHED", "RUNNING", worker, "job started");
      }
    }

    method CompleteJob(id: JobId, worker: WorkerId, version: nat, now: Time) returns (ok: bool)
      requires Valid()
      modifies this
      ensures Valid() && ok == Takes(old(jobs), id, Complete(worker, version), now)
      ensures jobs == Applied(cfg, old(jobs), id, Complete(worker, version), now)
      ensures ok <==> id in old(jobs) && old(jobs)[id].worker == Some(worker) && old(jobs)[id].version == version
                      && (old(jobs)[id].status.Running? || old(jobs)[id].status.Dispatched?)
      ensures jobs == if ok then old(jobs)[id := old(jobs)[id].(status := Succeeded)] else old(jobs)
      ensures Logs(old(audit), audit, id, StatesOf(cfg, old(jobs), id, Complete(worker, version), now))
      ensures audit == old(audit) + if ok then [Transition(id, "RUNNING", "SUCCEEDED", worker, "job completed")] else []
    {
      ok := id in jobs && jobs[id].worker == Some(worker) && jobs[id].version == version
            && (jobs[id].status == Running || jobs[id].status == Dispatched);
      if ok {
        jobs := jobs[id := jobs[id].(status := Succeeded)];
        RecordTransition(id, "RUNNING", "SUCCEEDED", worker, "job completed");
      }
    }

    /** First statement of a failure report. */
    method ReadRetryCount(id: JobId) returns (count: Option<nat>)
      ensures count == if id in jobs then Some(jobs[id].retryCount) else None
    {
      count := if id in jobs then Some(jobs[id].retryCount) else None;
    }

    /** Second statement of a failure report, with the backoff computed from an earlier read. */
    method FailUpdate(id: JobId, worker: WorkerId, version: nat, reason: string, call: FailCall, now: Time)
      returns (ok: bool)
      requires Valid() && call.worker == worker && call.version == version
      modifies this
      ensures Valid()
      ensures ok == (id in old(jobs) && Accepts(Row(old(jobs)[id], map[0 := call]), Op.FailUpdate(0), now))
      ensures id !in old(jobs) ==> jobs == old(jobs)
      ensures id in old(jobs) ==>
                jobs == old(jobs)[id := Step(cfg, Row(old(jobs)[id], map[0 := call]), Op.FailUpdate(0), now).job]
      ensures ok <==> id in old(jobs) && old(jobs)[id].worker == Some(worker) && old(jobs)[id].version == version
                      && (old(jobs)[id].status.Running? || old(jobs)[id].status.Dispatched?)
      ensures !ok ==> jobs == old(jobs) && audit == old(audit)
      ensures ok ==> FailedRow(old(jobs), jobs, id, now + call.backoffSecs * 1_000_000)
      ensures ok ==> FailedLog(old(jobs), old(audit), audit, id, worker, reason)
      ensures id in old(jobs) ==>
                Logs(old(audit), audit, id,
                     StateChange(cfg, Row(old(jobs)[id], map[0 := call]), Op.FailUpdate(0), now))
    {
      ok := id in jobs && jobs[id].worker == Some(worker) && jobs[id].version == version
            && (jobs[id].status == Running || jobs[id].status == Dispatched);
      if ok {
        var j := jobs[id];
        var last := j.retryCount + 1 >= j.maxRetries;
        jobs := jobs[id := j.(status := if last then DeadLetter else Pending,
                     retryCount := j.retryCount + 1, worker := None, expiresAt := None,
                     retryAfter := if last then None else Some(now + call.backoffSecs * SECOND))];
        RecordTransition(id, "RUNNING", StatusName(jobs[id].status), worker, reason);
      }
    }

    /** A failure report nobody interferes with: read, compute the backoff, update. */
    method FailJob(id: JobId, worker: WorkerId, version: nat, reason: string, raw: int64, pick: nat, now: Time)
      returns (ok: bool)
      requires Valid()
      modifies this
      ensures Valid()
      ensures ok == (id in old(jobs) && Held(old(jobs)[id], worker, version))
      ensures !ok ==> jobs == old(jobs) && audit == old(audit)
      ensures ok ==>
                var j := old(jobs)[id];
                var secs := WholeSeconds(CalculateBackoff(j.retryCount, cfg.retryBase, cfg.retryMax, raw, pick));
                && FailedRow(old(jobs), jobs, id, now + secs * 1_000_000)
                && FailedLog(old(jobs), old(audit), audit, id, worker, reason)
    {
      var count := ReadRetryCount(id);
      if count.None? {
        return false;
      }
      var backoff := CalculateBackoff(count.value, cfg.retryBase, cfg.retryMax, raw, pick);
      var call := FailCall(worker, version, count.value, WholeSeconds(backoff), jobs[id].version);
      ok := FailUpdate(id, worker, version, reason, call, now);
      assert !ok ==> jobs == old(jobs);
    }

    /** The loop over the rows the reclaim returned: one audit row each, and a running count. */
    method RecordReclaims(ids: set<JobId>) returns (count: nat, ghost order: seq<JobId>)
      modifies this`audit
      ensures count == |ids| == |order| && Enumerates(order, ids)
      ensures audit == old(audit) + ReclaimLog(order)
      ensures forall i :: 0 <= i < |order| ==>
                            audit[|old(audit)| + i]
                            == Transition(order[i], "RUNNING", "PENDING", "", "lease expired — reclaimed")
    {
      var rows := ids;
      count, order := 0, [];
      while rows != {}
        invariant rows <= ids && count == |order| == |ids| - |rows|
        invariant Enumerates(order, ids - rows)
        invariant audit == old(audit) + ReclaimLog(order)
        decreases |rows|
      {
        var id :| id in rows;
        RecordTransition(id, "RUNNING", "PENDING", "", "lease expired — reclaimed");
        EnumerateOneMore(order, ids - rows, id);
        assert ids - (rows - {id}) == (ids - rows) + {id};
        rows, count, order := rows - {id}, count + 1, order + [id];
      }
      forall i | 0 <= i < |order|
        ensures ReclaimLog(order)[i] == Transition(order[i], "RUNNING", "PENDING", "", "lease expired — reclaimed")
      {
        ReclaimLogAt(order, i);
      }
    }

    /** Resets every job whose lease has expired, and counts them. */
    method ReclaimExpiredJobs(now: Time) returns (count: nat, ghost order: seq<JobId>)
      requires Valid()
      modifies this
      ensures Valid() && jobs == ReclaimAll(old(jobs), now)
      ensures count == |ExpiredIds(old(jobs), now)| == |order|
      ensures Enumerates(order, ExpiredIds(old(jobs), now)) && audit == old(audit) + ReclaimLog(order)
      ensures |audit| == |old(audit)| + count
      ensures forall i :: 0 <= i < |order| ==>
                            audit[|old(audit)| + i]
                            == Transition(order[i], "RUNNING", "PENDING", "", "lease expired — reclaimed")
      ensures forall id :: id in jobs <==> id in old(jobs)
      ensures forall id :: id in old(jobs) ==>
                var j := old(jobs)[id];
                && (id in order <==> (j.status.Dispatched? || j.status.Running?)
                                     && j.expiresAt.Some? && j.expiresAt.value < now)
                && jobs[id] == if id in order then j.(status := Pending, worker := None, expiresAt := None,
                                                   retryAfter := None)
                               else j
    {
      var expired := ExpiredIds(jobs, now);
      jobs := map id | id in jobs :: if id in expired then Reclaimed(jobs[id]) else jobs[id];
      count, order := RecordReclaims(expired);
    }

    method CancelJob(id: JobId, tenant: string, now: Time) returns (ok: bool)
      requires Valid()
      modifies this
      ensures Valid() && ok == Takes(old(jobs), id, Cancel(tenant), now)
      ensures jobs == Applied(cfg, old(jobs), id, Cancel(tenant), now)
      ensures ok <==> id in old(jobs) && old(jobs)[id].tenant == tenant
                      && (old(jobs)[id].status.Pending? || old(jobs)[id].status.Dispatched?
                          || old(jobs)[id].status.Running?)
      ensures jobs == if ok then old(jobs)[id := old(jobs)[id].(status := Cancelled)] else old(jobs)
      ensures Logs(old(audit), audit, id, StatesOf(cfg, old(jobs), id, Cancel(tenant), now))
      ensures audit == old(audit) + if ok then [Transition(id, "", "CANCELLED", "", "cancelled by client")] else []
    {
      ok := id in jobs && jobs[id].tenant == tenant
            && jobs[id].status != Succeeded && jobs[id].status != Cancelled && jobs[id].status != DeadLetter;
      if ok {
        jobs := jobs[id := jobs[id].(status := Cancelled)];
        RecordTransition(id, "", "CANCELLED", "", "cancelled by client");
      }
    }

    /** The scheduler's lease renewal handler, which leaves no audit row. */
    method RenewLease(id: JobId, worker: WorkerId, version: nat, now: Time) returns (ok: bool)
      requires Valid()
      modifies this`jobs
      ensures Valid() && ok == Takes(old(jobs), id, Renew(worker, version), now)
      ensures jobs == Applied(cfg, old(jobs), id, Renew(worker, version), now)
      ensures ok <==> id in old(jobs) && old(jobs)[id].worker == Some(worker) && old(jobs)[id].version == version
                      && old(jobs)[id].status.Running?
      ensures jobs == if ok then old(jobs)[id := old(jobs)[id].(expiresAt := Some(now + cfg.leaseSecs * 1_000_000))]
                      else old(jobs)
      ensures StatesOf(cfg, old(jobs), id, Renew(worker, version), now) == []
    {
      ok := id in jobs && jobs[id].worker == Some(worker) && jobs[id].version == version && jobs[id].status == Running;
      if ok {
        jobs := jobs[id := jobs[id].(expiresAt := Some(now + cfg.leaseSecs * SECOND))];
      }
    }
  }
}
