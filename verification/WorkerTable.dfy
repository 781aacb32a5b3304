/** A worker's table of running jobs, and the executions it is meant to track.

  Both maps are keyed by job only. An execution ends when its deferred cleanup runs, which deletes the
  entries of its job, whoever they belong to by then. */
module WorkerTable {
  import opened Jobs
  import opened Sets

  datatype Execution = Execution(job: JobId, version: nat)

  /** `active` gives the lease version of each tracked job and `cancels` the execution whose context
    its cancel function cancels; `unfinished` holds all executions whose cleanup has not run. */
  datatype Tracking = Tracking(active: map<JobId, nat>, cancels: map<JobId, nat>, unfinished: map<nat, Execution>)

  datatype Op = Dispatch(job: JobId, version: nat) | Cancel(job: JobId) | Finish(exec: nat)

  predicate Takes(max: int, t: Tracking, op: Op) {
    match op
    case Dispatch(_, _) => |t.active| < max
    case Cancel(job) => job in t.cancels
    case Finish(exec) => exec in t.unfinished
  }

  /** `exec` names the execution a dispatch starts. */
  function Effect(t: Tracking, op: Op, exec: nat): Tracking {
    match op
    case Dispatch(job, version) =>
      Tracking(t.active[job := version], t.cancels[job := exec], t.unfinished[exec := Execution(job, version)])
    case Cancel(job) => t.(active := t.active - {job}, cancels := t.cancels - {job})
    case Finish(e) =>
      if e in t.unfinished then
        var job := t.unfinished[e].job;
        Tracking(t.active - {job}, t.cancels - {job}, t.unfinished - {e})
      else t
  }

  function Step(max: int, t: Tracking, op: Op, exec: nat): Tracking {
    if Takes(max, t, op) then Effect(t, op, exec) else t
  }

  /** Execution x is the one its job's entries belong to. */
  predicate Tracks(t: Tracking, x: nat) {
    x in t.unfinished && t.unfinished[x].job in t.cancels && t.cancels[t.unfinished[x].job] == x
  }

  /** The two maps agree, stay within the capacity, and every entry belongs to an unfinished execution
    of that very job and version. */
  predicate Sound(max: int, t: Tracking) {
    && t.active.Keys == t.cancels.Keys
    && |t.active| <= max
    && forall job :: job in t.active ==> t.cancels[job] in t.unfinished
                                         && t.unfinished[t.cancels[job]] == Execution(job, t.active[job])
  }

  lemma RemovalKeepsSound(max: int, t: Tracking, job: JobId, done: set<nat>)
    requires Sound(max, t) && forall x :: x in done && x in t.unfinished ==> t.unfinished[x].job == job
    ensures Sound(max, Tracking(t.active - {job}, t.cancels - {job}, t.unfinished - done))
  {
    SubsetSize((t.active - {job}).Keys, t.active.Keys);
  }

  lemma DispatchKeepsSound(max: int, t: Tracking, job: JobId, version: nat, exec: nat)
    requires Sound(max, t) && exec !in t.unfinished && |t.active| < max
    ensures Sound(max, Effect(t, Dispatch(job, version), exec))
  {
    var t' := Effect(t, Dispatch(job, version), exec);
    assert t'.active.Keys == t.active.Keys + {job};
    forall j | j in t'.active
      ensures t'.cancels[j] in t'.unfinished && t'.unfinished[t'.cancels[j]] == Execution(j, t'.active[j])
    {
      assert j == job || j in t.active;
    }
  }

  lemma StepKeepsSound(max: int, t: Tracking, op: Op, exec: nat)
    requires Sound(max, t) && exec !in t.unfinished
    ensures Sound(max, Step(max, t, op, exec))
  {
    if Takes(max, t, op) {
      match op
      case Dispatch(job, version) => DispatchKeepsSound(max, t, job, version, exec);
      case Cancel(job) =>
        RemovalKeepsSound(max, t, job, {});
        assert t.unfinished - {} == t.unfinished;
      case Finish(e) => RemovalKeepsSound(max, t, t.unfinished[e].job, {e});
    }
  }

  /** Any sequence of dispatches, cancellations and finishing executions. Statement k starts execution k. */
  datatype Run = Run(max: int, ops: seq<Op>) {
    function At(k: nat): Tracking
      requires k <= |ops|
    {
      if k == 0 then Tracking(map[], map[], map[]) else Step(max, At(k - 1), ops[k - 1], k - 1)
    }

    predicate Taken(k: nat) {
      k < |ops| && Takes(max, At(k), ops[k])
    }

    /** Statement d takes the entries of this job away from whoever had them. */
    predicate Displaces(d: nat, job: JobId) {
      Taken(d) && match ops[d]
                  case Dispatch(j, _) => j == job
                  case Cancel(j) => j == job
                  case Finish(e) => At(d).unfinished[e].job == job
    }
  }

  lemma {:induction false} TableSound(r: Run, k: nat)
    requires 0 <= r.max && k <= |r.ops|
    ensures Sound(r.max, r.At(k))
    ensures forall x :: x in r.At(k).unfinished ==> x < k
  {
    if k > 0 {
      TableSound(r, k - 1);
      StepKeepsSound(r.max, r.At(k - 1), r.ops[k - 1], k - 1);
    }
  }

  lemma {:induction false} BornLater(r: Run, k: nat)
    requires k <= |r.ops|
    ensures forall x :: x in r.At(k).unfinished ==> x < k
    ensures forall job :: job in r.At(k).cancels ==> r.At(k).cancels[job] < k
  {
    if k > 0 {
      BornLater(r, k - 1);
    }
  }

  /** One statement untracks an execution that goes on exactly if it displaces its job's entries. */
  lemma TracksAfterStep(max: int, t: Tracking, op: Op, k: nat, x: nat)
    requires x in t.unfinished && x != k && k !in t.unfinished
    requires x in Step(max, t, op, k).unfinished
    ensures Step(max, t, op, k).unfinished[x] == t.unfinished[x]
    ensures Tracks(Step(max, t, op, k), x) <==>
              Tracks(t, x) && !(Takes(max, t, op) && match op
                                                     case Dispatch(j, _) => j == t.unfinished[x].job
                                                     case Cancel(j) => j == t.unfinished[x].job
                                                     case Finish(e) => t.unfinished[e].job == t.unfinished[x].job)
  {
  }

  lemma AtNext(r: Run, k: nat)
    requires k < |r.ops|
    ensures r.At(k + 1) == Step(r.max, r.At(k), r.ops[k], k)
  {
  }

  /** Since statement x, nothing among the first k has displaced this job's entries. */
  predicate NotDisplaced(r: Run, x: nat, k: nat, job: JobId) {
    forall d :: x < d < k ==> !r.Displaces(d, job)
  }

  lemma NotDisplacedOneMore(r: Run, x: nat, k: nat, job: JobId)
    requires x < k
    ensures NotDisplaced(r, x, k + 1, job) <==> NotDisplaced(r, x, k, job) && !r.Displaces(k, job)
  {
  }

  lemma TracksAtStart(max: int, t: Tracking, op: Op, k: nat)
    requires k !in t.unfinished && k in Step(max, t, op, k).unfinished
    ensures op.Dispatch? && Step(max, t, op, k).unfinished[k].job == op.job && Tracks(Step(max, t, op, k), k)
  {
  }

  lemma TracksOneMore(r: Run, x: nat, k: nat)
    requires x < k < |r.ops| && x in r.At(k + 1).unfinished
    ensures x in r.At(k).unfinished && r.At(k + 1).unfinished[x] == r.At(k).unfinished[x]
    ensures Tracks(r.At(k + 1), x) <==> Tracks(r.At(k), x) && !r.Displaces(k, r.At(k).unfinished[x].job)
  {
    BornLater(r, k);
    AtNext(r, k);
    TracksAfterStep(r.max, r.At(k), r.ops[k], k, x);
  }

  /** An unfinished execution is tracked exactly as long as nobody dispatched its job again, cancelled
    it, or finished another execution of the same job: the cleanup of an old execution deletes the
    entries of a newer one. */
  lemma {:induction false} TrackedIffNotDisplaced(r: Run, x: nat, k: nat)
    requires x < k <= |r.ops| && x in r.At(k).unfinished
    ensures r.ops[x].Dispatch? && r.At(k).unfinished[x].job == r.ops[x].job
    ensures Tracks(r.At(k), x) <==> NotDisplaced(r, x, k, r.ops[x].job)
    decreases k
  {
    var i := k - 1;
    if x < i {
      TracksOneMore(r, x, i);
      TrackedIffNotDisplaced(r, x, i);
      NotDisplacedOneMore(r, x, i, r.ops[x].job);
    } else {
      BornLater(r, i);
      AtNext(r, i);
      TracksAtStart(r.max, r.At(i), r.ops[i], i);
    }
  }

  /** Statement k displaces nothing: it is no effective cancellation, nor a dispatch of a job that
    still has an unfinished execution. */
  predicate Harmless(max: int, t: Tracking, op: Op) {
    Takes(max, t, op) ==>
      && !op.Cancel?
      && (op.Dispatch? ==> forall x :: x in t.unfinished ==> t.unfinished[x].job != op.job)
  }

  predicate HarmlessAt(r: Run, k: nat)
    requires k < |r.ops|
  {
    Harmless(r.max, r.At(k), r.ops[k])
  }

  predicate Undisturbed(r: Run) {
    forall k :: 0 <= k < |r.ops| ==> HarmlessAt(r, k)
  }

  predicate TracksAll(t: Tracking) {
    forall x :: x in t.unfinished ==> Tracks(t, x)
  }

  lemma StepKeepsTracked(max: int, t: Tracking, op: Op, k: nat)
    requires k !in t.unfinished && TracksAll(t) && Harmless(max, t, op)
    ensures TracksAll(Step(max, t, op, k))
  {
    var t' := Step(max, t, op, k);
    forall x | x in t'.unfinished
      ensures Tracks(t', x)
    {
      if x != k {
        TracksAfterStep(max, t, op, k, x);
      }
    }
  }

  lemma {:induction false} AllTracked(r: Run, k: nat)
    requires Undisturbed(r) && k <= |r.ops|
    ensures TracksAll(r.At(k))
  {
    if k > 0 {
      var i := k - 1;
      AllTracked(r, i);
      BornLater(r, i);
      assert HarmlessAt(r, i);
      StepKeepsTracked(r.max, r.At(i), r.ops[i], i);
    }
  }

  lemma DisplacementUntracks(max: int, t: Tracking, op: Op, k: nat)
    requires Sound(max, t) && TracksAll(t) && k !in t.unfinished && !Harmless(max, t, op)
    ensures !TracksAll(Step(max, t, op, k))
  {
    var t' := Step(max, t, op, k);
    var x: nat;
    if op.Cancel? {
      x := t.cancels[op.job];
    } else {
      x :| x in t.unfinished && t.unfinished[x].job == op.job;
    }
    assert x in t'.unfinished && !Tracks(t', x);
  }

  lemma SomeUntracked(r: Run, k: nat) returns (n: nat)
    requires 0 <= r.max && k < |r.ops| && !HarmlessAt(r, k)
    ensures n <= |r.ops| && !TracksAll(r.At(n))
  {
    TableSound(r, k);
    n := k;
    if TracksAll(r.At(k)) {
      DisplacementUntracks(r.max, r.At(k), r.ops[k], k);
      n := k + 1;
    }
  }

  /** Every unfinished execution is tracked at every point exactly if nothing was displaced. */
  lemma TracksAllIffUndisturbed(r: Run)
    requires 0 <= r.max
    ensures Undisturbed(r) <==> forall k: nat :: k <= |r.ops| ==> TracksAll(r.At(k))
  {
    if Undisturbed(r) {
      forall k: nat | k <= |r.ops|
        ensures TracksAll(r.At(k))
      {
        AllTracked(r, k);
      }
    } else {
      var k: nat :| k < |r.ops| && !HarmlessAt(r, k);
      var n := SomeUntracked(r, k);
    }
  }

  lemma {:induction false} InjectiveSize(ids: set<nat>, jobs: set<JobId>, f: map<nat, JobId>)
    requires ids <= f.Keys && forall x :: x in ids ==> f[x] in jobs
    requires forall x, y :: x in ids && y in ids && f[x] == f[y] ==> x == y
    ensures |ids| <= |jobs|
    decreases |ids|
  {
    if x :| x in ids {
      InjectiveSize(ids - {x}, jobs - {f[x]}, f);
    }
  }

  /** The capacity check bounds the real executions in undisturbed runs. */
  lemma CapacityBoundsExecutions(r: Run, k: nat)
    requires 0 <= r.max && Undisturbed(r) && k <= |r.ops|
    ensures |r.At(k).unfinished| <= r.max
  {
    AllTracked(r, k);
    TableSound(r, k);
    var t := r.At(k);
    InjectiveSize(t.unfinished.Keys, t.active.Keys, map x | x in t.unfinished :: t.unfinished[x].job);
  }

  /** The worker's cancellation call has no caller yet. */
  predicate AsWired(r: Run) {
    forall k :: 0 <= k < |r.ops| ==> !r.ops[k].Cancel?
  }

  /** With room for one job, a second dispatch has to wait for the first execution to finish. */
  lemma {:induction false} SingleSlotUndisturbed(r: Run, k: nat)
    requires 0 <= r.max <= 1 && AsWired(r) && k <= |r.ops|
    ensures TracksAll(r.At(k)) && forall i: nat :: i < k ==> HarmlessAt(r, i)
  {
    if k > 0 {
      var i := k - 1;
      SingleSlotUndisturbed(r, i);
      TableSound(r, i);
      var t := r.At(i);
      if r.Taken(i) && r.ops[i].Dispatch? {
        assert t.cancels.Keys == t.active.Keys == {};
        assert forall x :: x in t.unfinished ==> !Tracks(t, x);
      }
      assert HarmlessAt(r, i);
      StepKeepsTracked(r.max, t, r.ops[i], i);
    }
  }

  /** The same job is dispatched over and over, under ever higher lease versions, as it is when its lease
    is reclaimed and claimed again for the same worker, and none of its executions finishes. */
  function Redispatches(max: int, job: JobId, n: nat): (r: Run)
    ensures r.max == max && |r.ops| == n && AsWired(r)
    ensures forall i :: 0 <= i < n ==> r.ops[i] == Dispatch(job, i + 1)
  {
    Run(max, seq(n, i requires 0 <= i < n => Dispatch(job, i + 1)))
  }

  /** The table shows no job but this one, and n executions are under way. */
  predicate Piled(t: Tracking, job: JobId, n: nat) {
    t.active.Keys <= {job} && |t.unfinished.Keys| == n
  }

  lemma OneMoreExecution(unfinished: map<nat, Execution>, exec: nat, e: Execution)
    requires exec !in unfinished
    ensures |unfinished[exec := e].Keys| == |unfinished.Keys| + 1
  {
    assert unfinished[exec := e].Keys == unfinished.Keys + {exec};
  }

  lemma SameJobAgain(active: map<JobId, nat>, job: JobId, version: nat)
    requires active.Keys <= {job}
    ensures |active| <= 1 && active[job := version].Keys <= {job}
  {
    SubsetSize(active.Keys, {job});
    assert |active| == |active.Keys|;
  }

  lemma PilesUp(max: int, t: Tracking, job: JobId, version: nat, exec: nat, n: nat)
    requires 2 <= max && Piled(t, job, n) && exec !in t.unfinished
    ensures Piled(Step(max, t, Dispatch(job, version), exec), job, n + 1)
  {
    SameJobAgain(t.active, job, version);
    OneMoreExecution(t.unfinished, exec, Execution(job, version));
  }

  /** The table then shows one job while any number of executions of it are under way. */
  lemma {:induction false} ExecutionsUnbounded(max: int, job: JobId, n: nat, k: nat)
    requires 2 <= max && k <= n
    ensures Piled(Redispatches(max, job, n).At(k), job, k)
  {
    var r := Redispatches(max, job, n);
    if k > 0 {
      ExecutionsUnbounded(max, job, n, k - 1);
      BornLater(r, k - 1);
      AtNext(r, k - 1);
      PilesUp(max, r.At(k - 1), job, k, k - 1, k - 1);
    }
  }

  /** As wired, the capacity bounds the executions under way only if it is at most one: with two slots, a
    job whose lease was reclaimed can be dispatched again beside its own old execution. */
  lemma CapacityBoundsIff(max: nat)
    ensures (forall r: Run, k: nat :: r.max == max && AsWired(r) && k <= |r.ops| ==> |r.At(k).unfinished| <= max)
            <==> max <= 1
  {
    if max <= 1 {
      forall r: Run, k: nat | r.max == max && AsWired(r) && k <= |r.ops|
        ensures |r.At(k).unfinished| <= max
      {
        SingleSlotUndisturbed(r, |r.ops|);
        CapacityBoundsExecutions(r, k);
      }
    } else {
      ExecutionsUnbounded(max, "job", max + 1, max + 1);
      var r := Redispatches(max, "job", max + 1);
      assert |r.At(max + 1).unfinished| == |r.At(max + 1).unfinished.Keys|;
    }
  }

  /** Nothing is tracked, and n executions are under way. */
  predicate Leaked(t: Tracking, n: nat) {
    t.active == map[] && t.cancels == map[] && |t.unfinished| == n
  }

  lemma DispatchThenCancel(max: int, t: Tracking, job: JobId, version: nat, exec: nat, n: nat)
    requires 1 <= max && Leaked(t, n) && exec !in t.unfinished
    ensures Leaked(Step(max, Step(max, t, Dispatch(job, version), exec), Cancel(job), exec + 1), n + 1)
  {
  }

  /** A run that dispatches a job and cancels it, over and over, none of the executions finishing. */
  predicate Churns(r: Run, job: JobId) {
    forall i :: 0 <= i < |r.ops| ==> r.ops[i] == if i % 2 == 0 then Dispatch(job, i) else Cancel(job)
  }

  lemma ChurnLeaks(r: Run, job: JobId, version: nat, k: nat, n: nat)
    requires 1 <= r.max && k + 2 <= |r.ops| && r.ops[k] == Dispatch(job, version) && r.ops[k + 1] == Cancel(job)
    requires Leaked(r.At(k), n)
    ensures Leaked(r.At(k + 2), n + 1)
  {
    BornLater(r, k);
    AtNext(r, k);
    AtNext(r, k + 1);
    DispatchThenCancel(r.max, r.At(k), job, version, k, n);
  }

  lemma ChurnPair(r: Run, job: JobId, i: nat)
    requires Churns(r, job) && 2 * i + 2 <= |r.ops|
    ensures r.ops[2 * i] == Dispatch(job, 2 * i) && r.ops[2 * i + 1] == Cancel(job)
  {
    assert (2 * i) % 2 == 0 && (2 * i + 1) % 2 == 1;
  }

  /** The cancellation call would take away even the bound of a single slot. */
  lemma {:induction false} CancelledExecutionsUnbounded(r: Run, job: JobId, n: nat)
    requires 1 <= r.max && Churns(r, job) && 2 * n <= |r.ops|
    ensures Leaked(r.At(2 * n), n)
  {
    if n > 0 {
      CancelledExecutionsUnbounded(r, job, n - 1);
      ChurnPair(r, job, n - 1);
      ChurnLeaks(r, job, 2 * (n - 1), 2 * (n - 1), n - 1);
    }
  }

  class Worker {
    var activeJobs: map<JobId, nat>
    var cancelFuncs: map<JobId, nat>
    const maxWorkerCount: int
    /** The goroutines started so far, and those whose cleanup is still to come. */
    var started: nat
    var running: map<nat, Execution>

    function View(): Tracking
      reads this
    {
      Tracking(activeJobs, cancelFuncs, running)
    }

    ghost predicate Valid()
      reads this
    {
      Sound(maxWorkerCount, View()) && forall x :: x in running ==> x < started
    }

    constructor (maxWorkerCount: nat)
      ensures Valid() && View() == Tracking(map[], map[], map[]) && this.maxWorkerCount == maxWorkerCount
    {
      this.maxWorkerCount := maxWorkerCount;
      activeJobs, cancelFuncs, running, started := map[], map[], map[], 0;
    }

    method DispatchJob(job: JobId, version: nat) returns (accepted: bool)
      requires Valid()
      modifies this
      ensures Valid() && accepted == Takes(maxWorkerCount, old(View()), Dispatch(job, version))
      ensures View() == Step(maxWorkerCount, old(View()), Dispatch(job, version), old(started))
      ensures accepted <==> |old(activeJobs)| < maxWorkerCount
      ensures activeJobs == if accepted then old(activeJobs)[job := version] else old(activeJobs)
      ensures cancelFuncs == if accepted then old(cancelFuncs)[job := old(started)] else old(cancelFuncs)
      ensures running == if accepted then old(running)[old(started) := Execution(job, version)] else old(running)
      ensures started == if accepted then old(started) + 1 else old(started)
    {
      StepKeepsSound(maxWorkerCount, View(), Dispatch(job, version), started);
      if |activeJobs| >= maxWorkerCount {
        return false;
      }
      activeJobs := activeJobs[job := version];
      cancelFuncs := cancelFuncs[job := started];
      running := running[started := Execution(job, version)];
      started := started + 1;
      return true;
    }

    method CancelJob(job: JobId) returns (ok: bool)
      requires Valid()
      modifies this
      ensures Valid() && ok == Takes(maxWorkerCount, old(View()), Cancel(job))
      ensures View() == Step(maxWorkerCount, old(View()), Cancel(job), started) && started == old(started)
      ensures ok <==> job in old(cancelFuncs)
      ensures activeJobs == old(activeJobs) - {job} && cancelFuncs == old(cancelFuncs) - {job}
      ensures running == old(running)
    {
      StepKeepsSound(maxWorkerCount, View(), Cancel(job), started);
      ok := job in cancelFuncs;
      if ok {
        activeJobs := activeJobs - {job};
        cancelFuncs := cancelFuncs - {job};
      }
    }

    /** The deferred cleanup of an execution. */
    method FinishExecution(exec: nat)
      requires Valid() && exec in running
      modifies this
      ensures Valid() && View() == Step(maxWorkerCount, old(View()), Finish(exec), started) && started == old(started)
      ensures var job := old(running)[exec].job;
              && activeJobs == old(activeJobs) - {job} && cancelFuncs == old(cancelFuncs) - {job}
              && running == old(running) - {exec}
    {
      StepKeepsSound(maxWorkerCount, View(), Finish(exec), started);
      var job := running[exec].job;
      activeJobs := activeJobs - {job};
      cancelFuncs := cancelFuncs - {job};
      running := running - {exec};
    }
  }
}
