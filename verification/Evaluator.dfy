/** One evaluation of a due schedule, from its row to the jobs it creates, with nobody interfering. */
module Evaluator {
  import Jobs
  import opened Store
  import opened Calendars
  import opened RequestIds

  /** The columns of a schedule that its evaluation uses. */
  datatype ScheduleRow = ScheduleRow(
    tenant: string,
    priority: string,
    maxRetries: int,
    policy: MissedPolicy,
    enabled: bool,
    lastRun: Jobs.Option<Instant>,
    nextRun: Instant)

  class ScheduleStore {
    var schedules: map<string, ScheduleRow>

    constructor ()
      ensures schedules == map[]
    {
      schedules := map[];
    }

    /** The due schedules, oldest first. */
    method GetDueSchedules(now: Instant) returns (due: seq<string>)
      ensures forall i, k :: 0 <= i < k < |due| ==> due[i] != due[k]
      ensures forall id :: id in due <==> id in schedules && schedules[id].enabled && schedules[id].nextRun <= now
      ensures forall i, k :: 0 <= i < k < |due| ==>
                               due[i] in schedules && due[k] in schedules
                               && schedules[due[i]].nextRun <= schedules[due[k]].nextRun
    {
      var rest := set id | id in schedules && IsDue(schedules[id].enabled, schedules[id].nextRun, now);
      ghost var all := rest;
      due := [];
      while rest != {}
        invariant rest <= all <= schedules.Keys
        invariant forall i :: 0 <= i < |due| ==> due[i] in schedules
        invariant forall i, k :: 0 <= i < k < |due| ==> due[i] != due[k]
        invariant forall id :: id in due <==> id in all && id !in rest
        invariant forall i, k :: 0 <= i < k < |due| ==> schedules[due[i]].nextRun <= schedules[due[k]].nextRun
        invariant forall i, id :: 0 <= i < |due| && id in rest ==> schedules[due[i]].nextRun <= schedules[id].nextRun
        decreases |rest|
      {
        ghost var oldest := Oldest(schedules, rest);
        var id :| id in rest && forall other :: other in rest ==> schedules[id].nextRun <= schedules[other].nextRun;
        due, rest := due + [id], rest - {id};
      }
    }

    method AdvanceSchedule(id: string, lastRun: Instant, nextRun: Instant)
      modifies this
      ensures schedules.Keys == old(schedules).Keys
      ensures forall k :: k in schedules && k != id ==> schedules[k] == old(schedules)[k]
      ensures id in schedules ==>
                schedules[id] == old(schedules)[id].(lastRun := Jobs.Some(lastRun), nextRun := nextRun)
    {
      if id in schedules {
        schedules := schedules[id := schedules[id].(lastRun := Jobs.Some(lastRun), nextRun := nextRun)];
      }
    }

    method ToggleSchedule(id: string, tenant: string, enabled: bool) returns (ok: bool)
      modifies this
      ensures ok == (id in old(schedules) && old(schedules)[id].tenant == tenant)
      ensures schedules == if ok then old(schedules)[id := old(schedules)[id].(enabled := enabled)] else old(schedules)
    {
      ok := id in schedules && schedules[id].tenant == tenant;
      if ok {
        schedules := schedules[id := schedules[id].(enabled := enabled)];
      }
    }

    method DeleteSchedule(id: string, tenant: string) returns (ok: bool)
      modifies this
      ensures ok == (id in old(schedules) && old(schedules)[id].tenant == tenant)
      ensures schedules == if ok then old(schedules) - {id} else old(schedules)
    {
      ok := id in schedules && schedules[id].tenant == tenant;
      if ok {
        schedules := schedules - {id};
      }
    }
  }

  lemma {:induction false} Oldest(schedules: map<string, ScheduleRow>, ids: set<string>) returns (oldest: string)
    requires ids != {} && ids <= schedules.Keys
    ensures oldest in ids && forall other :: other in ids ==> schedules[oldest].nextRun <= schedules[other].nextRun
    decreases |ids|
  {
    oldest :| oldest in ids;
    if ids != {oldest} {
      var other := Oldest(schedules, ids - {oldest});
      if schedules[other].nextRun < schedules[oldest].nextRun {
        oldest := other;
      }
    }
  }

  predicate HasRequest(jobs: Table, requestId: string) {
    exists id :: id in jobs && jobs[id].requestId == requestId
  }

  /** The request ids of these runs. */
  function Keys(id: string, runs: seq<Instant>): (keys: seq<string>)
    ensures |keys| == |runs| && forall i :: 0 <= i < |runs| ==> keys[i] == RequestId(id, Unix(runs[i]))
  {
    seq(|runs|, i requires 0 <= i < |runs| => RequestId(id, Unix(runs[i])))
  }

  /** Exactly the jobs of these request ids were added: no old job changed, every request id has a job
    now, and every new job is a fresh pending job for one of them. */
  ghost predicate Fired(before: Table, jobs: Table, s: ScheduleRow, keys: seq<string>, dbNow: Jobs.Time) {
    && (forall k :: k in before ==> k in jobs && jobs[k] == before[k])
    && (forall key :: key in keys ==> HasRequest(jobs, key))
    && forall k :: k in jobs && k !in before ==> IsFresh(jobs[k], s, dbNow) && jobs[k].requestId in keys
  }

  predicate IsFresh(j: Jobs.Job, s: ScheduleRow, dbNow: Jobs.Time) {
    j == Jobs.NewJob(j.requestId, s.tenant, s.priority, s.maxRetries, dbNow)
  }

  lemma FiredOneMore(before: Table, jobs: Table, jobs': Table, s: ScheduleRow, keys: seq<string>, key: string,
                     dbNow: Jobs.Time)
    requires Fired(before, jobs, s, keys, dbNow) && HasRequest(jobs', key)
    requires forall k :: k in jobs ==> k in jobs' && jobs'[k] == jobs[k]
    requires forall k :: k in jobs' && k !in jobs ==> IsFresh(jobs'[k], s, dbNow) && jobs'[k].requestId == key
    ensures Fired(before, jobs', s, keys + [key], dbNow)
  {
    forall q | q in keys + [key]
      ensures HasRequest(jobs', q)
    {
      if q != key {
        var k :| k in jobs && jobs[k].requestId == q;
      }
    }
  }

  /** Inserts a job for every key; `newIds` are the ids the database generates. */
  method CreateJobs(jobs: JobStore, s: ScheduleRow, keys: seq<string>, dbNow: Jobs.Time, newIds: seq<Jobs.JobId>)
    requires jobs.Valid() && |newIds| == |keys|
    requires forall i, k :: 0 <= i < k < |newIds| ==> newIds[i] != newIds[k]
    requires forall i :: 0 <= i < |newIds| ==> newIds[i] !in jobs.jobs
    modifies jobs
    ensures jobs.Valid() && Fired(old(jobs.jobs), jobs.jobs, s, keys, dbNow)
  {
    for i := 0 to |keys|
      invariant jobs.Valid() && Fired(old(jobs.jobs), jobs.jobs, s, keys[..i], dbNow)
      invariant forall k :: i <= k < |newIds| ==> newIds[k] !in jobs.jobs
    {
      ghost var before := jobs.jobs;
      var created := jobs.CreateJob(newIds[i], keys[i], s.tenant, s.priority, s.maxRetries, dbNow);
      assert HasRequest(jobs.jobs, keys[i]);
      FiredOneMore(old(jobs.jobs), before, jobs.jobs, s, keys[..i], keys[i], dbNow);
      assert keys[..i + 1] == keys[..i] + [keys[i]];
    }
    assert keys[..|keys|] == keys;
  }

  /** Creates the jobs of a due schedule and advances it. */
  method FireSchedule(jobs: JobStore, store: ScheduleStore, id: string, s: ScheduleRow, cal: Calendar, now: Instant,
                      dbNow: Jobs.Time, newIds: seq<Jobs.JobId>)
    requires jobs.Valid() && Increasing(cal) && |newIds| == |MissedRuns(cal, s.policy, s.nextRun, now)|
    requires forall i, k :: 0 <= i < k < |newIds| ==> newIds[i] != newIds[k]
    requires forall i :: 0 <= i < |newIds| ==> newIds[i] !in jobs.jobs
    modifies jobs, store
    ensures jobs.Valid()
    ensures Fired(old(jobs.jobs), jobs.jobs, s, Keys(id, MissedRuns(cal, s.policy, s.nextRun, now)), dbNow)
    ensures forall k :: k in jobs.jobs && k !in old(jobs.jobs) ==>
              jobs.jobs[k] == Jobs.Job(jobs.jobs[k].requestId, s.tenant, s.priority, s.maxRetries, dbNow,
                                       Jobs.Pending, 0, Jobs.None, Jobs.None, 0, Jobs.None, Jobs.None)
    ensures store.schedules.Keys == old(store.schedules).Keys
    ensures id in store.schedules ==>
              store.schedules[id] == old(store.schedules)[id].(lastRun := Jobs.Some(now), nextRun := Next(cal, now))
    ensures forall k :: k in store.schedules && k != id ==> store.schedules[k] == old(store.schedules)[k]
  {
    var runs := ComputeMissedRuns(cal, s.policy, s.nextRun, now);
    CreateJobs(jobs, s, Keys(id, runs), dbNow, newIds);
    store.AdvanceSchedule(id, now, Next(cal, now));
  }

  /** A slot that was due, lies below the new next_run_at, and still has no job. */
  ghost predicate Gap(jobs: Table, id: string, cal: Calendar, n: nat, m: nat, nextRun: Instant) {
    n <= m && Slot(cal, m) < nextRun && !HasRequest(jobs, RequestId(id, Unix(Slot(cal, m))))
  }

  lemma HasJobIff(before: Table, jobs: Table, s: ScheduleRow, keys: seq<string>, dbNow: Jobs.Time, key: string)
    requires Fired(before, jobs, s, keys, dbNow)
    ensures HasRequest(jobs, key) <==> HasRequest(before, key) || key in keys
  {
    if HasRequest(before, key) {
      var k :| k in before && before[k].requestId == key;
      assert k in jobs && jobs[k].requestId == key;
    }
  }

  lemma KeysDiffer(id: string, a: int, b: int)
    requires a != b
    ensures RequestId(id, a) != RequestId(id, b)
  {
    if RequestId(id, a) == RequestId(id, b) {
      RequestIdInjective(id, id, a, b);
    }
  }

  /** A slot's request id is among the keys of the runs exactly if the slot is one of the first ten due. */
  lemma KeyFiredIff(id: string, cal: Calendar, n: nat, now: Instant, m: nat)
    requires Increasing(cal) && n <= m
    ensures RequestId(id, Unix(Slot(cal, m))) in Keys(id, Catchup(cal, Slot(cal, n), now, MAX_CATCHUP))
            <==> m < n + Due(cal, n, now) && m < n + 10
  {
    var runs := Catchup(cal, Slot(cal, n), now, MAX_CATCHUP);
    var keys := Keys(id, runs);
    CatchupIsFirstDue(cal, n, now, MAX_CATCHUP);
    if m < n + |runs| {
      assert keys[m - n] == RequestId(id, Unix(Slot(cal, m)));
    } else {
      forall i | 0 <= i < |runs|
        ensures keys[i] != RequestId(id, Unix(Slot(cal, m)))
      {
        assert runs[i] == Slot(cal, n + i) && cal(n + i) < cal(m);
        KeysDiffer(id, Unix(runs[i]), Unix(Slot(cal, m)));
      }
    }
  }

  lemma BelowNextIff(cal: Calendar, n: nat, now: Instant, m: nat)
    requires Increasing(cal) && n <= m
    ensures Slot(cal, m) < Next(cal, now) <==> m < n + Due(cal, n, now)
  {
    DueCounts(cal, n, now, m);
    var next := NextIsLeast(cal, now);
  }

  /** Which slots a RUN_ALL evaluation leaves without a job although it moves the schedule past them: the
    due ones after the first ten that had none before. */
  lemma GapIff(before: Table, jobs: Table, id: string, s: ScheduleRow, cal: Calendar, n: nat, now: Instant,
               dbNow: Jobs.Time, m: nat)
    requires Increasing(cal) && s.policy.RunAll? && s.nextRun == Slot(cal, n)
    requires Fired(before, jobs, s, Keys(id, MissedRuns(cal, s.policy, s.nextRun, now)), dbNow)
    ensures Gap(jobs, id, cal, n, m, Next(cal, now))
            <==> n + 10 <= m < n + Due(cal, n, now) && !HasRequest(before, RequestId(id, Unix(Slot(cal, m))))
  {
    if n <= m {
      BelowNextIff(cal, n, now, m);
      KeyFiredIff(id, cal, n, now, m);
      HasJobIff(before, jobs, s, Keys(id, MissedRuns(cal, s.policy, s.nextRun, now)), dbNow,
                RequestId(id, Unix(Slot(cal, m))));
    }
  }

  /** A RUN_ALL evaluation leaves a gap behind exactly if some due slot after the first ten had no job
    before, whatever jobs others, or an earlier evaluation that crashed, had inserted; so when none of
    the due slots had a job, exactly if more than ten were due. */
  lemma CapLeavesGap(before: Table, jobs: Table, id: string, s: ScheduleRow, cal: Calendar, n: nat, now: Instant,
                     dbNow: Jobs.Time)
    requires Increasing(cal) && s.policy.RunAll? && s.nextRun == Slot(cal, n)
    requires Fired(before, jobs, s, Keys(id, MissedRuns(cal, s.policy, s.nextRun, now)), dbNow)
    ensures (exists m: nat :: Gap(jobs, id, cal, n, m, Next(cal, now)))
            <==> exists m: nat :: n + 10 <= m < n + Due(cal, n, now)
                                  && !HasRequest(before, RequestId(id, Unix(Slot(cal, m))))
    ensures (forall m: nat :: n <= m ==> !HasRequest(before, RequestId(id, Unix(Slot(cal, m)))))
            ==> ((exists m: nat :: Gap(jobs, id, cal, n, m, Next(cal, now))) <==> Due(cal, n, now) > 10)
  {
    forall m: nat
      ensures Gap(jobs, id, cal, n, m, Next(cal, now))
              <==> n + 10 <= m < n + Due(cal, n, now) && !HasRequest(before, RequestId(id, Unix(Slot(cal, m))))
    {
      GapIff(before, jobs, id, s, cal, n, now, dbNow, m);
    }
    var eleventh := n + 10;
    assert Gap(jobs, id, cal, n, eleventh, Next(cal, now)) <==>
           eleventh < n + Due(cal, n, now) && !HasRequest(before, RequestId(id, Unix(Slot(cal, eleventh))));
  }
}
