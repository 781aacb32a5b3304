/** The quota overshoot that `Cluster` bounds is reached: submissions that check at the same time do go
  past the quota together. */
module Overshoot {
  import opened Jobs
  import opened Traces
  import opened Cluster

  /** An identifier longer than all before it. */
  function Name(n: nat): (name: string)
    ensures |name| == n
  {
    seq(n, _ => 'x')
  }

  predicate PendingRow(row: Row, id: JobId, n: nat) {
    |id| < n && row.job.requestId == id && row.job.tenant == "t" && row.job.status.Pending?
  }

  predicate HasJobs(rows: map<JobId, Row>, n: nat) {
    |rows.Keys| == n && forall id :: id in rows ==> PendingRow(rows[id], id, n)
  }

  function Numbers(m: nat): (numbers: set<nat>)
    ensures forall i :: i in numbers ==> i < m
  {
    if m == 0 then {} else Numbers(m - 1) + {m - 1}
  }

  lemma {:induction false} NumbersSize(m: nat)
    ensures |Numbers(m)| == m
  {
    if m > 0 {
      NumbersSize(m - 1);
    }
  }

  predicate HasChecked(checked: map<nat, string>, m: nat) {
    checked.Keys == Numbers(m) && forall sub :: sub in checked ==> checked[sub] == "t"
  }

  /** There are n jobs, all pending, and m submissions have checked the quota but not inserted. */
  predicate Staged(db: DB, n: nat, m: nat) {
    HasJobs(db.rows, n) && HasChecked(db.checked, m)
  }

  lemma StagedCounts(db: DB, n: nat, m: nat)
    requires Staged(db, n, m)
    ensures |Active(db, "t")| == n && |CheckedSubs(db, "t")| == m
  {
    assert forall id :: id in db.rows ==> PendingRow(db.rows[id], id, n);
    assert Active(db, "t") == db.rows.Keys;
    assert CheckedSubs(db, "t") == db.checked.Keys;
    NumbersSize(m);
  }

  function CheckEvent(m: nat): Event {
    Event(CheckQuota(m, "t"), 0)
  }

  function InsertEvent(n: nat, m: nat): Event {
    Event(SubmitInsert(m, Name(n), Name(n), "HIGH", 3), 0)
  }

  lemma OneMoreChecked(checked: map<nat, string>, m: nat)
    requires HasChecked(checked, m)
    ensures m !in checked && HasChecked(checked[m := "t"], m + 1)
  {
    assert Numbers(m + 1) == Numbers(m) + {m};
  }

  lemma CheckStage(cfg: Config, quota: int, db: DB, n: nat, m: nat)
    requires Staged(db, n, m) && n < quota
    ensures Staged(Next(cfg, quota, db, CheckEvent(m)), n, m + 1)
  {
    StagedCounts(db, n, m);
    OneMoreChecked(db.checked, m);
    assert Next(cfg, quota, db, CheckEvent(m)) == db.(checked := db.checked[m := "t"]);
  }

  lemma NameIsNew(db: DB, n: nat)
    requires HasJobs(db.rows, n)
    ensures Name(n) !in db.rows && !RequestTaken(db, Name(n))
  {
    assert forall id :: id in db.rows ==> PendingRow(db.rows[id], id, n);
  }

  lemma OneMoreJob(rows: map<JobId, Row>, n: nat, row: Row)
    requires HasJobs(rows, n) && Name(n) !in rows && PendingRow(row, Name(n), n + 1)
    ensures HasJobs(rows[Name(n) := row], n + 1)
  {
    assert rows[Name(n) := row].Keys == rows.Keys + {Name(n)};
    assert forall id :: id in rows ==> PendingRow(rows[id], id, n);
  }

  lemma OneLessChecked(checked: map<nat, string>, m: nat)
    requires HasChecked(checked, m + 1)
    ensures m in checked && HasChecked(checked - {m}, m)
  {
    assert Numbers(m + 1) == Numbers(m) + {m};
  }

  lemma InsertStage(cfg: Config, quota: int, db: DB, n: nat, m: nat)
    requires Staged(db, n, m + 1)
    ensures Staged(Next(cfg, quota, db, InsertEvent(n, m)), n + 1, m)
  {
    NameIsNew(db, n);
    OneLessChecked(db.checked, m);
    OneMoreJob(db.rows, n, Row(NewJob(Name(n), "t", "HIGH", 3, 0), map[]));
  }

  /** A run of submissions only, all at one moment, that ends in this stage and never has more than
    `width` submissions between check and insert. */
  predicate Stages(r: Run, width: nat, n: nat, m: nat) {
    && Staged(r.At(|r.events|), n, m) && Narrow(r, |r.events|, "t", width)
    && forall e :: e in r.events ==> e.at == 0 && !e.act.CronInsert?
  }

  function Longer(r: Run, e: Event): Run {
    r.(events := r.events + [e])
  }

  lemma {:induction false} PrefixSame(r: Run, e: Event, k: nat)
    requires k <= |r.events|
    ensures Longer(r, e).At(k) == r.At(k)
  {
    if k > 0 {
      PrefixSame(r, e, k - 1);
    }
  }

  lemma NarrowOneMore(r: Run, e: Event, width: nat)
    requires Narrow(r, |r.events|, "t", width) && NarrowAt(Longer(r, e), |r.events| + 1, "t", width)
    ensures Narrow(Longer(r, e), |r.events| + 1, "t", width)
  {
    forall i | 0 <= i <= |r.events|
      ensures NarrowAt(Longer(r, e), i, "t", width)
    {
      PrefixSame(r, e, i);
      assert NarrowAt(r, i, "t", width);
    }
  }

  lemma StagesOneMore(r: Run, e: Event, width: nat, n: nat, m: nat, n': nat, m': nat)
    requires Stages(r, width, n, m) && m' <= width && e.at == 0 && !e.act.CronInsert?
    requires Staged(Next(r.cfg, r.quota, r.At(|r.events|), e), n', m')
    ensures Stages(Longer(r, e), width, n', m')
  {
    PrefixSame(r, e, |r.events|);
    assert Longer(r, e).At(|r.events| + 1) == Next(r.cfg, r.quota, r.At(|r.events|), e);
    StagedCounts(Longer(r, e).At(|r.events| + 1), n', m');
    NarrowOneMore(r, e, width);
  }

  lemma StagesByCheck(r: Run, width: nat, n: nat, m: nat)
    requires Stages(r, width, n, m) && n < r.quota && m < width
    ensures Stages(Longer(r, CheckEvent(m)), width, n, m + 1)
  {
    CheckStage(r.cfg, r.quota, r.At(|r.events|), n, m);
    StagesOneMore(r, CheckEvent(m), width, n, m, n, m + 1);
  }

  lemma StagesByInsert(r: Run, width: nat, n: nat, m: nat)
    requires Stages(r, width, n, m + 1) && m <= width
    ensures Stages(Longer(r, InsertEvent(n, m)), width, n + 1, m)
  {
    InsertStage(r.cfg, r.quota, r.At(|r.events|), n, m);
    StagesOneMore(r, InsertEvent(n, m), width, n, m + 1, n + 1, m);
  }

  lemma StagesAtStart(cfg: Config, quota: nat, width: nat)
    ensures Stages(Run(cfg, quota, []), width, 0, 0)
  {
    var r := Run(cfg, quota, []);
    assert r.At(0) == DB(map[], map[]);
    StagedCounts(r.At(0), 0, 0);
    assert NarrowAt(r, 0, "t", width);
  }

  /** Up to quota - 1 jobs one at a time; then `width` checks together, and their inserts. */
  lemma {:induction false} Reach(cfg: Config, quota: nat, width: nat, n: nat, m: nat) returns (r: Run)
    requires 1 <= quota && 1 <= width && m <= width && (quota <= n ==> n + m <= quota - 1 + width)
    ensures r.cfg == cfg && r.quota == quota && Stages(r, width, n, m)
    decreases n, m
  {
    if n < quota && m > 0 {
      var r' := Reach(cfg, quota, width, n, m - 1);
      StagesByCheck(r', width, n, m - 1);
      r := Longer(r', CheckEvent(m - 1));
    } else if n > 0 {
      var r' := Reach(cfg, quota, width, n - 1, m + 1);
      StagesByInsert(r', width, n - 1, m);
      r := Longer(r', InsertEvent(n - 1, m));
    } else {
      StagesAtStart(cfg, quota, width);
      r := Run(cfg, quota, []);
    }
  }

  lemma {:induction false} NoCronJobs(r: Run, k: nat, tenant: string)
    requires k <= |r.events| && forall e :: e in r.events ==> !e.act.CronInsert?
    ensures CronCreated(r, k, tenant) == 0
  {
    if k > 0 {
      assert r.events[k - 1] in r.events;
      NoCronJobs(r, k - 1, tenant);
    }
  }

  /** The bound on the overshoot is the least one: for every quota and every width some run with no cron
    jobs and at most `width` submissions between check and insert has quota + width - 1 active jobs. */
  lemma QuotaOvershootReached(cfg: Config, quota: nat, width: nat) returns (r: Run)
    requires 1 <= quota && 1 <= width
    ensures r.Valid() && r.quota == quota && Narrow(r, |r.events|, "t", width)
    ensures |Active(r.At(|r.events|), "t")| == quota + width - 1 && CronCreated(r, |r.events|, "t") == 0
  {
    r := Reach(cfg, quota, width, quota + width - 1, 0);
    StagedCounts(r.At(|r.events|), quota + width - 1, 0);
    NoCronJobs(r, |r.events|, "t");
    assert forall i :: 0 <= i < |r.events| ==> r.events[i] in r.events;
  }
}
