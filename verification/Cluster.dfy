/** The whole jobs table under any number of schedulers, cron evaluators, workers and clients.

  A run is any interleaving of statements on any rows. Submitting a job is two statements, a count of
  the tenant's active jobs and a later insert, so other submissions can come between. */
module Cluster {
  import opened Jobs
  import opened Traces
  import opened Leases
  import opened Sets
  import History

  datatype Action =
    | CheckQuota(sub: nat, tenant: string)
    | SubmitInsert(sub: nat, id: JobId, requestId: string, priority: string, maxRetries: int)
    | Abandon(sub: nat)
    | CronInsert(id: JobId, requestId: string, tenant: string, priority: string, maxRetries: int)
    | On(id: JobId, op: Op)

  datatype Event = Event(act: Action, at: Time)

  /** `checked` holds the submissions that passed the quota check and have not inserted yet. */
  datatype DB = DB(rows: map<JobId, Row>, checked: map<nat, string>)

  function Active(db: DB, tenant: string): set<JobId> {
    ActiveIds(map id | id in db.rows :: db.rows[id].job, tenant)
  }

  function CheckedSubs(db: DB, tenant: string): set<nat> {
    set sub | sub in db.checked && db.checked[sub] == tenant
  }

  predicate RequestTaken(db: DB, requestId: string) {
    exists id :: id in db.rows && db.rows[id].job.requestId == requestId
  }

  /** The insert does nothing when the request id (or the generated primary key) is taken. */
  function Inserted(db: DB, id: JobId, job: Job): DB {
    if id in db.rows || RequestTaken(db, job.requestId) then db
    else db.(rows := db.rows[id := Row(job, map[])])
  }

  function Next(cfg: Config, quota: int, db: DB, e: Event): DB {
    match e.act
    case CheckQuota(sub, tenant) =>
      if sub !in db.checked && |Active(db, tenant)| < quota
      then db.(checked := db.checked[sub := tenant]) else db
    case SubmitInsert(sub, id, requestId, priority, maxRetries) =>
      if sub in db.checked
      then
        var job := NewJob(requestId, db.checked[sub], priority, maxRetries, e.at);
        Inserted(db, id, job).(checked := db.checked - {sub})
      else db
    case Abandon(sub) => db.(checked := db.checked - {sub})
    case CronInsert(id, requestId, tenant, priority, maxRetries) =>
      Inserted(db, id, NewJob(requestId, tenant, priority, maxRetries, e.at))
    case On(id, op) =>
      if id in db.rows then db.(rows := db.rows[id := Step(cfg, db.rows[id], op, e.at)]) else db
  }

  /** The job an event asks to insert, and its id: a submission that has passed its check, or a cron job. */
  function Asked(db: DB, e: Event): Option<(JobId, Job)> {
    match e.act
    case SubmitInsert(sub, id, requestId, priority, maxRetries) =>
      if sub in db.checked
      then Some((id, NewJob(requestId, db.checked[sub], priority, maxRetries, e.at)))
      else None
    case CronInsert(id, requestId, tenant, priority, maxRetries) =>
      Some((id, NewJob(requestId, tenant, priority, maxRetries, e.at)))
    case _ => None
  }

  /** A row appears exactly when an event asks for its job and neither the id nor the request id is taken;
    rows never disappear. */
  lemma RowAppearsIff(cfg: Config, quota: int, db: DB, e: Event, id: JobId)
    ensures var db' := Next(cfg, quota, db, e);
            && (id in db'.rows <==>
                || id in db.rows
                || (Asked(db, e).Some? && Asked(db, e).value.0 == id
                    && forall k :: k in db.rows ==> db.rows[k].job.requestId != Asked(db, e).value.1.requestId))
            && (id in db'.rows && id !in db.rows ==> db'.rows[id] == Row(Asked(db, e).value.1, map[]))
  {
  }

  /** A submission is between check and insert exactly from a check that found the tenant's unfinished jobs
    below the quota until it inserts or is abandoned. */
  lemma CheckedIff(cfg: Config, quota: int, db: DB, e: Event, sub: nat)
    ensures var db' := Next(cfg, quota, db, e);
            && (sub in db'.checked <==>
                if sub in db.checked then !((e.act.SubmitInsert? || e.act.Abandon?) && e.act.sub == sub)
                else e.act.CheckQuota? && e.act.sub == sub && |Active(db, e.act.tenant)| < quota)
            && (sub in db'.checked ==>
                  db'.checked[sub] == if sub in db.checked then db.checked[sub] else e.act.tenant)
  {
  }

  datatype Run = Run(cfg: Config, quota: int, events: seq<Event>) {

    predicate Valid() {
      forall i, k :: 0 <= i <= k < |events| ==> events[i].at <= events[k].at
    }

    function At(k: nat): DB
      requires k <= |events|
    {
      if k == 0 then DB(map[], map[]) else Next(cfg, quota, At(k - 1), events[k - 1])
    }

    /** The statements among the first k that reached the row with this id. */
    function Projection(k: nat, id: JobId): seq<Stamp>
      requires k <= |events|
    {
      if k == 0 then []
      else Projection(k - 1, id) + (if Hits(k - 1, id) then [Stamp(events[k - 1].act.op, events[k - 1].at)] else [])
    }

    predicate Hits(k: nat, id: JobId)
      requires k < |events|
    {
      events[k].act.On? && events[k].act.id == id && id in At(k).rows
    }

    /** The trace of one row of this run. */
    function RowTrace(k: nat, id: JobId): Trace
      requires k <= |events| && id in At(k).rows
    {
      Trace(cfg, Origin(At(k).rows[id].job), Projection(k, id))
    }
  }

  lemma {:induction false} ProjectionBeforeInsert(r: Run, k: nat, id: JobId)
    requires k <= |r.events| && id !in r.At(k).rows
    ensures r.Projection(k, id) == []
  {
    if k > 0 {
      ProjectionBeforeInsert(r, k - 1, id);
    }
  }

  lemma StepKeepsOrigin(cfg: Config, row: Row, op: Op, now: Time)
    ensures Origin(Step(cfg, row, op, now).job) == Origin(row.job)
  {
  }

  /** What one event of a run does to one row: insert it, step it, or leave it alone. */
  lemma RowStep(r: Run, k: nat, id: JobId)
    requires k < |r.events|
    ensures id in r.At(k).rows ==>
              && id in r.At(k + 1).rows
              && r.At(k + 1).rows[id] == (if r.Hits(k, id)
                                          then Step(r.cfg, r.At(k).rows[id], r.events[k].act.op, r.events[k].at)
                                          else r.At(k).rows[id])
    ensures id !in r.At(k).rows && id in r.At(k + 1).rows ==>
              var row := r.At(k + 1).rows[id];
              row == Row(Origin(row.job), map[]) && row.job.createdAt == r.events[k].at && !r.Hits(k, id)
  {
  }

  function TimeOf(r: Run, k: nat): Time
    requires k <= |r.events|
  {
    if k == 0 then 0 else r.events[k - 1].at
  }

  predicate TracedBy(r: Run, k: nat, id: JobId)
    requires k <= |r.events| && id in r.At(k).rows
  {
    var t := r.RowTrace(k, id);
    && t.Valid() && t.At(|t.steps|) == r.At(k).rows[id]
    && t.origin.createdAt <= TimeOf(r, k)
    && forall i :: 0 <= i < |t.steps| ==> t.steps[i].at <= TimeOf(r, k)
  }

  /** Rows do not interfere: in every run of the cluster, each row is exactly what the statements that
    reached it produce on their own, so every theorem about traces holds of every job of every run. */
  lemma {:induction false} RunsProjectToTraces(r: Run, k: nat, id: JobId)
    requires r.Valid() && k <= |r.events| && id in r.At(k).rows
    ensures TracedBy(r, k, id)
  {
    var i := k - 1;
    RowStep(r, i, id);
    if id !in r.At(i).rows {
      ProjectionBeforeInsert(r, i, id);
    } else {
      RunsProjectToTraces(r, i, id);
      assert TimeOf(r, i) <= TimeOf(r, k) || i == 0;
      var t, t' := r.RowTrace(i, id), r.RowTrace(k, id);
      if r.Hits(i, id) {
        StepKeepsOrigin(r.cfg, r.At(i).rows[id], r.events[i].act.op, r.events[i].at);
        TraceExtends(t, Stamp(r.events[i].act.op, r.events[i].at), t');
      } else {
        assert t' == t;
      }
    }
  }

  lemma ProjectionStep(r: Run, n: nat, id: JobId)
    requires n < |r.events|
    ensures r.Projection(n, id) <= r.Projection(n + 1, id)
    ensures id in r.At(n).rows ==>
              id in r.At(n + 1).rows && Origin(r.At(n).rows[id].job) == Origin(r.At(n + 1).rows[id].job)
  {
    RowStep(r, n, id);
    if r.Hits(n, id) {
      StepKeepsOrigin(r.cfg, r.At(n).rows[id], r.events[n].act.op, r.events[n].at);
    }
  }

  lemma {:induction false} ProjectionGrows(r: Run, k: nat, n: nat, id: JobId)
    requires k <= n <= |r.events|
    ensures r.Projection(k, id) <= r.Projection(n, id)
    ensures id in r.At(k).rows ==>
              id in r.At(n).rows && Origin(r.At(k).rows[id].job) == Origin(r.At(n).rows[id].job)
    decreases n
  {
    if k < n {
      var i := n - 1;
      ProjectionGrows(r, k, i, id);
      ProjectionStep(r, i, id);
    }
  }

  /** An event that reaches a row is the statement of the row's trace at the matching position. */
  lemma EventIsTraceStep(r: Run, k: nat, n: nat, id: JobId) returns (t: Trace, i: nat)
    requires r.Valid() && k < n <= |r.events| && r.Hits(k, id)
    ensures id in r.At(n).rows && t == r.RowTrace(n, id) && t.Valid()
    ensures i == |r.Projection(k, id)| < |t.steps|
    ensures t.steps[i] == Stamp(r.events[k].act.op, r.events[k].at) && t.At(i) == r.At(k).rows[id]
  {
    ProjectionGrows(r, k, n, id);
    ProjectionGrows(r, k + 1, n, id);
    RunsProjectToTraces(r, n, id);
    RunsProjectToTraces(r, k, id);
    t, i := r.RowTrace(n, id), |r.Projection(k, id)|;
    PrefixAgrees(r.RowTrace(k, id), t, i);
  }

  /** Event k is an accepted result for this job, reported by worker w under lease version v. */
  predicate ResultAt(r: Run, k: nat, id: JobId, w: WorkerId, v: nat)
    requires k < |r.events|
  {
    && r.Hits(k, id) && Accepts(r.At(k).rows[id], r.events[k].act.op, r.events[k].at)
    && match r.events[k].act.op
       case Complete(w', v') => w' == w && v' == v
       case FailUpdate(c) => r.At(k).rows[id].calls[c].worker == w && r.At(k).rows[id].calls[c].version == v
       case _ => false
  }

  lemma ResultIsTraceResult(r: Run, k: nat, id: JobId, w: WorkerId, v: nat) returns (t: Trace, i: nat)
    requires r.Valid() && k < |r.events| && ResultAt(r, k, id, w, v)
    ensures id in r.At(|r.events|).rows && t == r.RowTrace(|r.events|, id) && t.Valid()
    ensures i == |r.Projection(k, id)| && t.Results(i, w, v) && (r.events[k].act.op.Complete? ==> t.Succeeds(i, w, v))
  {
    t, i := EventIsTraceStep(r, k, |r.events|, id);
  }

  lemma HitsDiffer(r: Run, k: nat, n: nat, id: JobId)
    requires k < n <= |r.events| && r.Hits(k, id)
    ensures |r.Projection(k, id)| < |r.Projection(n, id)|
  {
    ProjectionGrows(r, k + 1, n, id);
  }

  /** Over every run of the cluster, each lease of each job yields at most one accepted result, and a
    job succeeds at most once. */
  lemma AtMostOneResult(r: Run, k: nat, k': nat, id: JobId, w: WorkerId, w': WorkerId, v: nat, v': nat)
    requires r.Valid() && k < |r.events| && k' < |r.events|
    requires ResultAt(r, k, id, w, v) && ResultAt(r, k', id, w', v')
    requires v == v' || (r.events[k].act.op.Complete? && r.events[k'].act.op.Complete?)
    ensures k == k' && w == w'
  {
    var t, i := ResultIsTraceResult(r, k, id, w, v);
    var t', i' := ResultIsTraceResult(r, k', id, w', v');
    if v == v' {
      OneResultPerVersion(t, i, i', w, w', v);
    } else {
      NoResultAfterSuccess(t, i, i', w, w', v, v');
      NoResultAfterSuccess(t, i', i, w', w, v', v);
    }
    if k < k' {
      HitsDiffer(r, k, k', id);
    } else if k' < k {
      HitsDiffer(r, k', k, id);
    }
  }

  /** Every statement of a row's trace is an event of the run. */
  lemma {:induction false} TraceStepIsEvent(r: Run, n: nat, id: JobId, i: nat) returns (k: nat)
    requires n <= |r.events| && i < |r.Projection(n, id)|
    ensures k < n && r.Hits(k, id) && |r.Projection(k, id)| == i
  {
    if i < |r.Projection(n - 1, id)| {
      k := TraceStepIsEvent(r, n - 1, id, i);
    } else {
      k := n - 1;
    }
  }

  /** Event k granted lease version v of this job to worker w. */
  predicate GrantAt(r: Run, k: nat, id: JobId, w: WorkerId, v: nat)
    requires k < |r.events|
  {
    && r.Hits(k, id) && r.events[k].act.op == Claim(w) && Eligible(r.At(k).rows[id].job, r.events[k].at)
    && v == r.At(k).rows[id].job.version + 1
  }

  /** Event k granted the lease or renewed it. */
  predicate ExtendsAt(r: Run, k: nat, id: JobId, w: WorkerId, v: nat)
    requires k < |r.events|
  {
    || GrantAt(r, k, id, w, v)
    || (r.Hits(k, id) && r.events[k].act.op == Renew(w, v)
        && Accepts(r.At(k).rows[id], r.events[k].act.op, r.events[k].at))
  }

  /** Event k ended lease version v of this job: an accepted failure of its holder, or a reclaim more
    than a lease length after the grant at event p and after every accepted renewal since. */
  predicate ReleaseAt(r: Run, p: nat, k: nat, id: JobId, w: WorkerId, v: nat)
    requires p < |r.events| && k < |r.events|
  {
    || (ResultAt(r, k, id, w, v) && r.events[k].act.op.FailUpdate?)
    || (ReclaimAt(r, k, id, v)
        && forall x :: p <= x < k && ExtendsAt(r, x, id, w, v) ==>
             r.events[x].at + r.cfg.leaseSecs * SECOND < r.events[k].at)
  }

  predicate ReclaimAt(r: Run, k: nat, id: JobId, v: nat)
    requires k < |r.events|
  {
    && r.Hits(k, id) && r.events[k].act.op.Reclaim? && Expired(r.At(k).rows[id].job, r.events[k].at)
    && r.At(k).rows[id].job.version == v
  }

  lemma GrantIsTraceGrant(r: Run, k: nat, n: nat, id: JobId, w: WorkerId, v: nat) returns (t: Trace, i: nat)
    requires r.Valid() && k < n <= |r.events| && GrantAt(r, k, id, w, v)
    ensures id in r.At(n).rows && t == r.RowTrace(n, id) && t.Valid()
    ensures i == |r.Projection(k, id)| < |t.steps| && t.Grants(i, w, v) && t.steps[i].at == r.events[k].at
  {
    t, i := EventIsTraceStep(r, k, n, id);
    assert t.At(i + 1) == Step(t.cfg, t.At(i), t.steps[i].op, t.steps[i].at);
  }

  lemma ExtensionIsTraceExtension(r: Run, x: nat, e: nat, id: JobId, w: WorkerId, v: nat) returns (t: Trace, i: nat)
    requires r.Valid() && x < e < |r.events| && ExtendsAt(r, x, id, w, v)
    ensures id in r.At(|r.events|).rows && t == r.RowTrace(|r.events|, id)
    ensures i == |r.Projection(x, id)| < |t.steps| && Extends(t, i, w, v) && t.steps[i].at == r.events[x].at
    ensures i < |r.Projection(e, id)|
  {
    if GrantAt(r, x, id, w, v) {
      t, i := GrantIsTraceGrant(r, x, |r.events|, id, w, v);
    } else {
      t, i := EventIsTraceStep(r, x, |r.events|, id);
    }
    ProjectionGrows(r, x + 1, e, id);
  }

  /** What a surrender in a row's trace is in the run. */
  lemma SurrenderIsEvent(r: Run, p: nat, e: nat, id: JobId, w: WorkerId, v: nat)
    requires r.Valid() && p < e < |r.events| && r.Hits(e, id) && id in r.At(|r.events|).rows
    requires Surrenders(r.RowTrace(|r.events|, id), |r.Projection(p, id)|, |r.Projection(e, id)|, w, v)
    ensures (ResultAt(r, e, id, w, v) && r.events[e].act.op.FailUpdate?) || ReclaimAt(r, e, id, v)
  {
    var t, i := EventIsTraceStep(r, e, |r.events|, id);
  }

  lemma SurrenderIsRelease(r: Run, p: nat, e: nat, id: JobId, w: WorkerId, v: nat)
    requires r.Valid() && p < e < |r.events| && r.Hits(e, id) && id in r.At(|r.events|).rows
    requires Surrenders(r.RowTrace(|r.events|, id), |r.Projection(p, id)|, |r.Projection(e, id)|, w, v)
    ensures ReleaseAt(r, p, e, id, w, v)
  {
    SurrenderIsEvent(r, p, e, id, w, v);
    var t, n := EventIsTraceStep(r, e, |r.events|, id);
    if ReclaimAt(r, e, id, v) {
      forall x | p <= x < e && ExtendsAt(r, x, id, w, v)
        ensures r.events[x].at + r.cfg.leaseSecs * SECOND < r.events[e].at
      {
        var t', i := ExtensionIsTraceExtension(r, x, e, id, w, v);
        ProjectionGrows(r, p, x, id);
        assert Extends(t, i, w, v);
      }
    }
  }

  /** Over every run of the cluster, with any number of leaders claiming and reclaiming at once, the
    leases of one job never overlap: between two grants the first one has been released. */
  lemma ClusterLeasesDisjoint(r: Run, p: nat, q: nat, id: JobId, w: WorkerId, w': WorkerId, v: nat, v': nat)
    returns (e: nat)
    requires r.Valid() && p < q < |r.events| && GrantAt(r, p, id, w, v) && GrantAt(r, q, id, w', v')
    ensures v < v' && p < e < q && ReleaseAt(r, p, e, id, w, v)
  {
    var t, i := GrantIsTraceGrant(r, p, |r.events|, id, w, v);
    var t', k := GrantIsTraceGrant(r, q, |r.events|, id, w', v');
    ProjectionGrows(r, p + 1, q, id);
    LeasesDisjoint(t, i, k, w, w', v, v');
    var x :| i < x < k && Surrenders(t, i, x, w, v);
    e := TraceStepIsEvent(r, q, id, x);
    if e <= p {
      ProjectionGrows(r, e, p, id);
    }
    SurrenderIsRelease(r, p, e, id, w, v);
  }

  predicate SameRequest(db: DB, a: JobId, b: JobId) {
    a in db.rows && b in db.rows && db.rows[a].job.requestId == db.rows[b].job.requestId
  }

  lemma NextKeepsRequests(cfg: Config, quota: int, db: DB, e: Event, a: JobId, b: JobId)
    requires SameRequest(Next(cfg, quota, db, e), a, b)
    ensures a == b || SameRequest(db, a, b)
  {
  }

  /** Every request id has at most one job, whoever inserted it and however often. */
  lemma {:induction false} OneJobPerRequest(r: Run, k: nat, a: JobId, b: JobId)
    requires k <= |r.events| && SameRequest(r.At(k), a, b)
    ensures a == b
  {
    NextKeepsRequests(r.cfg, r.quota, r.At(k - 1), r.events[k - 1], a, b);
    if a != b {
      OneJobPerRequest(r, k - 1, a, b);
    }
  }

  /** The jobs that count against a tenant's quota are its unfinished ones: those that nobody completed or
    cancelled and that have not used up their failures. */
  lemma ActiveIff(r: Run, k: nat, tenant: string, id: JobId)
    requires r.Valid() && k <= |r.events|
    ensures id in Active(r.At(k), tenant)
            <==> id in r.At(k).rows && r.At(k).rows[id].job.tenant == tenant
                 && var t := r.RowTrace(k, id); History.Unfinished(t, |t.steps|)
  {
    if id in r.At(k).rows {
      RunsProjectToTraces(r, k, id);
      var t := r.RowTrace(k, id);
      History.UnfinishedIff(t, |t.steps|);
    }
  }

  /** Event k really inserted a cron job for the tenant; these inserts skip the quota check. */
  predicate CronCreates(r: Run, k: nat, tenant: string)
    requires k < |r.events|
  {
    var act := r.events[k].act;
    act.CronInsert? && act.tenant == tenant && act.id !in r.At(k).rows && act.id in r.At(k + 1).rows
  }

  function CronCreated(r: Run, k: nat, tenant: string): nat
    requires k <= |r.events|
  {
    if k == 0 then 0 else CronCreated(r, k - 1, tenant) + if CronCreates(r, k - 1, tenant) then 1 else 0
  }

  /** Active jobs plus submissions that may still add one. */
  function Load(db: DB, tenant: string): nat {
    |Active(db, tenant)| + |CheckedSubs(db, tenant)|
  }

  lemma StepNeverActivates(cfg: Config, db: DB, id: JobId, op: Op, now: Time, tenant: string)
    requires id in db.rows
    ensures |Active(db.(rows := db.rows[id := Step(cfg, db.rows[id], op, now)]), tenant)| <= |Active(db, tenant)|
  {
    SubsetSize(Active(db.(rows := db.rows[id := Step(cfg, db.rows[id], op, now)]), tenant), Active(db, tenant));
  }

  lemma InsertAddsOne(db: DB, id: JobId, job: Job, tenant: string)
    ensures |Active(Inserted(db, id, job), tenant)|
            <= |Active(db, tenant)|
               + if job.tenant == tenant && id !in db.rows && id in Inserted(db, id, job).rows then 1 else 0
  {
    var active, active' := Active(db, tenant), Active(Inserted(db, id, job), tenant);
    if job.tenant == tenant && id !in db.rows {
      SubsetSize(active', active + {id});
    } else {
      SubsetSize(active', active);
    }
  }

  lemma CheckedShrinks(db: DB, sub: nat, tenant: string)
    ensures var db' := db.(checked := db.checked - {sub});
            |CheckedSubs(db', tenant)|
            == |CheckedSubs(db, tenant)| - if sub in db.checked && db.checked[sub] == tenant then 1 else 0
  {
    var db' := db.(checked := db.checked - {sub});
    assert CheckedSubs(db', tenant) == CheckedSubs(db, tenant) - {sub};
  }

  /** The load grows only by a quota check that passed, or by a cron insert. */
  lemma LoadStep(r: Run, k: nat, tenant: string)
    requires k < |r.events|
    ensures || Load(r.At(k + 1), tenant) <= Load(r.At(k), tenant) + (if CronCreates(r, k, tenant) then 1 else 0)
            || (Active(r.At(k + 1), tenant) == Active(r.At(k), tenant) && |Active(r.At(k), tenant)| < r.quota)
  {
    var db, e := r.At(k), r.events[k];
    match e.act
    case CheckQuota(sub, tenant') =>
      if tenant' != tenant {
        assert CheckedSubs(r.At(k + 1), tenant) == CheckedSubs(db, tenant);
      }
      assert Active(r.At(k + 1), tenant) == Active(db, tenant);
    case SubmitInsert(sub, id, requestId, priority, maxRetries) =>
      if sub in db.checked {
        var job := NewJob(requestId, db.checked[sub], priority, maxRetries, e.at);
        InsertAddsOne(db, id, job, tenant);
        CheckedShrinks(Inserted(db, id, job), sub, tenant);
        assert CheckedSubs(Inserted(db, id, job), tenant) == CheckedSubs(db, tenant);
        assert Active(r.At(k + 1), tenant) == Active(Inserted(db, id, job), tenant);
      }
    case Abandon(sub) =>
      CheckedShrinks(db, sub, tenant);
      assert Active(r.At(k + 1), tenant) == Active(db, tenant);
    case CronInsert(id, requestId, tenant', priority, maxRetries) =>
      InsertAddsOne(db, id, NewJob(requestId, tenant', priority, maxRetries, e.at), tenant);
      assert CheckedSubs(r.At(k + 1), tenant) == CheckedSubs(db, tenant);
    case On(id, op) =>
      if id in db.rows {
        StepNeverActivates(r.cfg, db, id, op, e.at, tenant);
        assert CheckedSubs(r.At(k + 1), tenant) == CheckedSubs(db, tenant);
      }
  }

  predicate NarrowAt(r: Run, k: nat, tenant: string, width: nat)
    requires k <= |r.events|
  {
    |CheckedSubs(r.At(k), tenant)| <= width
  }

  /** At no time up to k are more than `width` submissions of the tenant between check and insert. */
  predicate Narrow(r: Run, k: nat, tenant: string, width: nat)
    requires k <= |r.events|
  {
    forall i :: 0 <= i <= k ==> NarrowAt(r, i, tenant, width)
  }

  lemma LoadStaysBounded(r: Run, k: nat, tenant: string, width: nat, bound: int)
    requires k < |r.events| && NarrowAt(r, k + 1, tenant, width)
    requires r.quota + width - 1 <= bound && Load(r.At(k), tenant) <= bound
    ensures Load(r.At(k + 1), tenant) <= bound + if CronCreates(r, k, tenant) then 1 else 0
  {
    LoadStep(r, k, tenant);
  }

  /** The quota check is not atomic with the insert. If at no time more than `width` submissions of the
    tenant are between the two, its active jobs exceed the quota by at most width - 1 (plus the jobs
    the cron evaluator inserts without any check). */
  lemma {:induction false} QuotaOvershootBounded(r: Run, k: nat, tenant: string, width: nat)
    requires k <= |r.events| && 0 <= r.quota && 1 <= width && Narrow(r, k, tenant, width)
    ensures Load(r.At(k), tenant) <= r.quota + width - 1 + CronCreated(r, k, tenant)
    ensures |Active(r.At(k), tenant)| <= r.quota + width - 1 + CronCreated(r, k, tenant)
  {
    if k > 0 {
      var i := k - 1;
      assert NarrowAt(r, k, tenant, width);
      QuotaOvershootBounded(r, i, tenant, width);
      LoadStaysBounded(r, i, tenant, width, r.quota + width - 1 + CronCreated(r, i, tenant));
    }
  }
}
