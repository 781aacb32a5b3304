/** One tick of the dispatcher: claim pending jobs, one by one, until none is left. */
module Dispatch {
  import opened Jobs
  import opened Traces
  import opened Store
  import opened Workers

  /** A claim of the tick: the job and the worker it was claimed for. */
  datatype Assignment = Assignment(id: JobId, worker: WorkerId)

  function Ids(claims: seq<Assignment>): (ids: seq<JobId>)
    ensures |ids| == |claims| && forall i :: 0 <= i < |claims| ==> ids[i] == claims[i].id
  {
    seq(|claims|, i requires 0 <= i < |claims| => claims[i].id)
  }

  /** The claims come in queue order: priority rank, then age. */
  predicate InQueueOrder(jobs: Table, order: seq<JobId>) {
    && (forall i :: 0 <= i < |order| ==> order[i] in jobs)
    && forall i, k :: 0 <= i < k < |order| ==> Before(jobs[order[i]], jobs[order[k]])
  }

  /** The table after all these claims at time `now`. */
  predicate ClaimsApplied(cfg: Config, jobs: Table, jobs': Table, claims: seq<Assignment>, now: Time) {
    && jobs'.Keys == jobs.Keys
    && (forall i :: 0 <= i < |claims| ==>
          && claims[i].id in jobs
          && jobs'[claims[i].id] == Claimed(jobs[claims[i].id], claims[i].worker, cfg.leaseSecs, now))
    && forall id :: id in jobs && id !in Ids(claims) ==> jobs'[id] == jobs[id]
  }

  /** Between two claims: the claimed jobs are in order, and none of those still eligible belongs
    before any of them. */
  ghost predicate DrainedSoFar(cfg: Config, before: Table, jobs: Table, claims: seq<Assignment>, now: Time) {
    && ClaimsApplied(cfg, before, jobs, claims, now)
    && InQueueOrder(before, Ids(claims))
    && EligibleIds(jobs, now) <= EligibleIds(before, now)
    && Enumerates(Ids(claims), EligibleIds(before, now) - EligibleIds(jobs, now))
    && forall i, id :: 0 <= i < |claims| && id in EligibleIds(jobs, now) ==> Before(before[claims[i].id], before[id])
  }

  lemma ClaimOneMore(cfg: Config, before: Table, jobs: Table, claims: seq<Assignment>, next: Assignment, now: Time)
    requires ClaimsApplied(cfg, before, jobs, claims, now)
    requires next.id in EligibleIds(jobs, now) && next.id !in Ids(claims)
    ensures ClaimsApplied(cfg, before, Applied(cfg, jobs, next.id, Claim(next.worker), now), claims + [next], now)
  {
    assert Ids(claims + [next]) == Ids(claims) + [next.id];
    assert jobs[next.id] == before[next.id];
    forall i | 0 <= i < |claims|
      ensures claims[i].id != next.id
    {
      assert Ids(claims)[i] == claims[i].id;
    }
  }

  lemma DrainOneMore(cfg: Config, before: Table, jobs: Table, claims: seq<Assignment>, next: Assignment, now: Time)
    requires DrainedSoFar(cfg, before, jobs, claims, now) && IsNext(jobs, next.id, now)
    ensures var jobs' := Applied(cfg, jobs, next.id, Claim(next.worker), now);
            && EligibleIds(jobs', now) == EligibleIds(jobs, now) - {next.id}
            && DrainedSoFar(cfg, before, jobs', claims + [next], now)
  {
    var jobs' := Applied(cfg, jobs, next.id, Claim(next.worker), now);
    var done := EligibleIds(before, now) - EligibleIds(jobs, now);
    assert EligibleIds(jobs', now) == EligibleIds(jobs, now) - {next.id};
    assert EligibleIds(before, now) - EligibleIds(jobs', now) == done + {next.id};
    assert Ids(claims + [next]) == Ids(claims) + [next.id];
    EnumerateOneMore(Ids(claims), done, next.id);
    ClaimOneMore(cfg, before, jobs, claims, next, now);
    QueueOneMore(before, jobs, claims, next, now);
  }

  /** The next claim belongs after those made and before those still to come. */
  lemma QueueOneMore(before: Table, jobs: Table, claims: seq<Assignment>, next: Assignment, now: Time)
    requires InQueueOrder(before, Ids(claims)) && IsNext(jobs, next.id, now)
    requires EligibleIds(jobs, now) <= EligibleIds(before, now)
    requires forall id :: id in EligibleIds(jobs, now) ==> jobs[id] == before[id]
    requires forall i, id :: 0 <= i < |claims| && id in EligibleIds(jobs, now) ==>
                               Before(before[claims[i].id], before[id])
    ensures InQueueOrder(before, Ids(claims + [next]))
    ensures forall i, id :: 0 <= i < |claims + [next]| && id in EligibleIds(jobs, now) ==>
                              Before(before[(claims + [next])[i].id], before[id])
  {
    assert Ids(claims + [next]) == Ids(claims) + [next.id];
  }

  predicate ToLeastLoaded(fleet: Fleet, claims: seq<Assignment>) {
    forall c :: c in claims ==> IsLeastLoaded(fleet, c.worker)
  }

  /** What a tick can come to: the eligible jobs, each once and in queue order, each claimed for a worker
    that was least loaded before the tick. */
  ghost predicate TickOutcome(jobs: Table, fleet: Fleet, claims: seq<Assignment>, now: Time) {
    Enumerates(Ids(claims), EligibleIds(jobs, now)) && InQueueOrder(jobs, Ids(claims)) && ToLeastLoaded(fleet, claims)
  }

  ghost predicate Ticking(cfg: Config, fleet: Fleet, before: Table, jobs: Table, claims: seq<Assignment>, now: Time) {
    DrainedSoFar(cfg, before, jobs, claims, now) && ToLeastLoaded(fleet, claims)
  }

  lemma TickStarts(cfg: Config, fleet: Fleet, jobs: Table, now: Time)
    ensures Ticking(cfg, fleet, jobs, jobs, [], now)
  {
  }

  lemma TickGoesOn(cfg: Config, fleet: Fleet, before: Table, jobs: Table, claims: seq<Assignment>,
                   next: Assignment, now: Time)
    requires Ticking(cfg, fleet, before, jobs, claims, now)
    requires IsNext(jobs, next.id, now) && IsLeastLoaded(fleet, next.worker)
    ensures var jobs' := Applied(cfg, jobs, next.id, Claim(next.worker), now);
            && EligibleIds(jobs', now) == EligibleIds(jobs, now) - {next.id}
            && Ticking(cfg, fleet, before, jobs', claims + [next], now)
  {
    DrainOneMore(cfg, before, jobs, claims, next, now);
  }

  lemma TickEnds(cfg: Config, fleet: Fleet, before: Table, jobs: Table, claims: seq<Assignment>, now: Time)
    requires Ticking(cfg, fleet, before, jobs, claims, now) && EligibleIds(jobs, now) == {}
    ensures ClaimsApplied(cfg, before, jobs, claims, now) && TickOutcome(before, fleet, claims, now)
  {
    assert EligibleIds(before, now) - EligibleIds(jobs, now) == EligibleIds(before, now);
  }

  /** One round of the loop: a least loaded worker, and the next job for it. */
  method DispatchNext(store: JobStore, fleet: WorkerStore, now: Time) returns (claim: Option<Assignment>)
    requires store.Valid()
    modifies store
    ensures store.Valid()
    ensures claim.None? <==>
            || EligibleIds(old(store.jobs), now) == {}
            || forall w :: w in fleet.workers ==> !Available(fleet.workers, w)
    ensures claim.None? ==> store.jobs == old(store.jobs)
    ensures claim.Some? ==>
              && IsLeastLoaded(fleet.workers, claim.value.worker) && IsNext(old(store.jobs), claim.value.id, now)
              && store.jobs == Applied(store.cfg, old(store.jobs), claim.value.id, Claim(claim.value.worker), now)
  {
    var worker := fleet.GetLeastLoadedWorker();
    if worker.None? {
      return None;
    }
    var id := store.ClaimNextJob(worker.value, now);
    claim := if id.None? then None else Some(Assignment(id.value, worker.value));
  }

  /** With a worker below capacity and no other change, the tick ends and claims exactly the eligible
    jobs, each once, in queue order. Claims do not count against a worker's capacity, so every claim
    goes to a worker that was least loaded before the tick. */
  method DispatchPendingJobs(store: JobStore, fleet: WorkerStore, now: Time) returns (claims: seq<Assignment>)
    requires store.Valid()
    modifies store
    ensures store.Valid()
    ensures if exists w :: w in fleet.workers && Available(fleet.workers, w)
            then && TickOutcome(old(store.jobs), fleet.workers, claims, now)
                 && ClaimsApplied(store.cfg, old(store.jobs), store.jobs, claims, now)
                 && EligibleIds(store.jobs, now) == {}
                 && (forall i, k :: 0 <= i < k < |claims| ==>
                       Before(old(store.jobs)[claims[i].id], old(store.jobs)[claims[k].id]))
            else claims == [] && store.jobs == old(store.jobs)
  {
    ghost var before := store.jobs;
    claims := [];
    TickStarts(store.cfg, fleet.workers, before, now);
    while true
      invariant store.Valid() && Ticking(store.cfg, fleet.workers, before, store.jobs, claims, now)
      invariant claims == [] ==> store.jobs == before
      invariant claims != [] ==> Available(fleet.workers, claims[0].worker)
      decreases |EligibleIds(store.jobs, now)|
    {
      ghost var jobs := store.jobs;
      var claim := DispatchNext(store, fleet, now);
      if claim.None? {
        break;
      }
      TickGoesOn(store.cfg, fleet.workers, before, jobs, claims, claim.value, now);
      claims := claims + [claim.value];
    }
    if EligibleIds(store.jobs, now) == {} {
      TickEnds(store.cfg, fleet.workers, before, store.jobs, claims, now);
    }
  }

  function ClaimsFor(claims: seq<Assignment>, w: WorkerId): nat {
    if claims == [] then 0 else ClaimsFor(claims[1..], w) + if claims[0].worker == w then 1 else 0
  }

  /** No worker that was available gets more jobs than it still had room for. */
  predicate WithinCapacity(fleet: Fleet, claims: seq<Assignment>) {
    forall w :: w in fleet && Available(fleet, w) ==> fleet[w].activeJobs + ClaimsFor(claims, w) <= fleet[w].maxJobs
  }

  lemma {:induction false} ClaimsForAtMost(fleet: Fleet, claims: seq<Assignment>, w: WorkerId)
    requires ToLeastLoaded(fleet, claims)
    ensures ClaimsFor(claims, w) <= if IsLeastLoaded(fleet, w) then |claims| else 0
  {
    if claims != [] {
      ClaimsForAtMost(fleet, claims[1..], w);
    }
  }

  function AllTo(order: seq<JobId>, w: WorkerId): (claims: seq<Assignment>)
    ensures |claims| == |order| && forall i :: 0 <= i < |order| ==> claims[i] == Assignment(order[i], w)
  {
    if order == [] then [] else [Assignment(order[0], w)] + AllTo(order[1..], w)
  }

  lemma {:induction false} AllToCounts(order: seq<JobId>, w: WorkerId)
    ensures ClaimsFor(AllTo(order, w), w) == |order|
  {
    if order != [] {
      AllToCounts(order[1..], w);
    }
  }

  lemma {:induction false} SomeQueueOrder(jobs: Table, ids: set<JobId>) returns (order: seq<JobId>)
    requires ids <= jobs.Keys
    ensures Enumerates(order, ids) && InQueueOrder(jobs, order)
    decreases |ids|
  {
    if ids == {} {
      order := [];
    } else {
      var first := SomeFirst(jobs, ids);
      var rest := SomeQueueOrder(jobs, ids - {first});
      assert forall i :: 0 <= i < |rest| ==> rest[i] in rest;
      order := [first] + rest;
    }
  }

  /** Any one of the least loaded workers can get every job of a tick. */
  lemma SomeTickTo(jobs: Table, fleet: Fleet, now: Time, w: WorkerId) returns (claims: seq<Assignment>)
    requires IsLeastLoaded(fleet, w)
    ensures TickOutcome(jobs, fleet, claims, now) && ClaimsFor(claims, w) == |EligibleIds(jobs, now)|
  {
    var order := SomeQueueOrder(jobs, EligibleIds(jobs, now));
    claims := AllTo(order, w);
    AllToCounts(order, w);
    EnumerationSize(order, EligibleIds(jobs, now));
    assert Ids(claims) == order;
  }

  /** A tick stays within the workers' capacities, however it breaks ties, exactly if every least loaded
    worker has room for all the eligible jobs at once. */
  lemma CapacityKeptIff(jobs: Table, fleet: Fleet, now: Time)
    ensures (forall claims :: TickOutcome(jobs, fleet, claims, now) ==> WithinCapacity(fleet, claims))
            <==> forall w :: w in fleet && IsLeastLoaded(fleet, w) ==>
                               fleet[w].activeJobs + |EligibleIds(jobs, now)| <= fleet[w].maxJobs
  {
    forall w | w in fleet && IsLeastLoaded(fleet, w)
               && fleet[w].activeJobs + |EligibleIds(jobs, now)| > fleet[w].maxJobs
      ensures exists claims :: TickOutcome(jobs, fleet, claims, now) && !WithinCapacity(fleet, claims)
    {
      var claims := SomeTickTo(jobs, fleet, now, w);
      assert !WithinCapacity(fleet, claims);
    }
    forall claims, w | TickOutcome(jobs, fleet, claims, now) && w in fleet && Available(fleet, w)
      ensures ClaimsFor(claims, w) <= if IsLeastLoaded(fleet, w) then |EligibleIds(jobs, now)| else 0
    {
      ClaimsForAtMost(fleet, claims, w);
      EnumerationSize(Ids(claims), EligibleIds(jobs, now));
    }
  }

  /** A worker that is strictly the least loaded gets them all in every outcome. */
  lemma SoleLeastLoadedOverfilledIff(jobs: Table, fleet: Fleet, claims: seq<Assignment>, now: Time, w: WorkerId)
    requires TickOutcome(jobs, fleet, claims, now) && Available(fleet, w)
    requires forall x :: x in fleet && Available(fleet, x) && x != w ==> !AtMostAsLoaded(fleet[x], fleet[w])
    ensures WithinCapacity(fleet, claims) <==> fleet[w].activeJobs + |EligibleIds(jobs, now)| <= fleet[w].maxJobs
  {
    SoleLeastLoadedGetsAll(fleet, claims, w);
    EnumerationSize(Ids(claims), EligibleIds(jobs, now));
    forall x | x in fleet && Available(fleet, x)
      ensures ClaimsFor(claims, x) == if x == w then |claims| else 0
    {
      ClaimsForAtMost(fleet, claims, x);
    }
  }

  lemma {:induction false} SoleLeastLoadedGetsAll(fleet: Fleet, claims: seq<Assignment>, w: WorkerId)
    requires ToLeastLoaded(fleet, claims) && Available(fleet, w)
    requires forall x :: x in fleet && Available(fleet, x) && x != w ==> !AtMostAsLoaded(fleet[x], fleet[w])
    ensures ClaimsFor(claims, w) == |claims|
  {
    if claims != [] {
      SoleLeastLoadedGetsAll(fleet, claims[1..], w);
      assert IsLeastLoaded(fleet, claims[0].worker);
    }
  }

  predicate NoTies(jobs: Table, ids: set<JobId>) {
    forall a, b ::
      a in ids && b in ids && a in jobs && b in jobs && Before(jobs[a], jobs[b]) && Before(jobs[b], jobs[a])
      ==> a == b
  }

  lemma {:induction false} EnumerationSize(order: seq<JobId>, ids: set<JobId>)
    requires Enumerates(order, ids)
    ensures |order| == |ids|
    decreases |order|
  {
    if order == [] {
      assert ids == {};
    } else {
      var n := |order| - 1;
      assert order == order[..n] + [order[n]];
      assert forall id :: id in order[..n] <==> id in ids - {order[n]};
      EnumerationSize(order[..n], ids - {order[n]});
    }
  }

  lemma {:induction false} OrdersAgree(jobs: Table, ids: set<JobId>, a: seq<JobId>, b: seq<JobId>, n: nat)
    requires NoTies(jobs, ids) && Enumerates(a, ids) && Enumerates(b, ids)
    requires InQueueOrder(jobs, a) && InQueueOrder(jobs, b) && n <= |a| && n <= |b|
    ensures forall i :: 0 <= i < n ==> a[i] == b[i]
  {
    if n > 0 {
      var i := n - 1;
      OrdersAgree(jobs, ids, a, b, i);
      assert a[i] in b && b[i] in a;
      var k :| 0 <= k < |b| && b[k] == a[i];
      var l :| 0 <= l < |a| && a[l] == b[i];
      assert k >= i && l >= i;
    }
  }

  /** The outcome of a tick is determined when no two eligible jobs tie in rank and age: there is only
    one enumeration of them in queue order. */
  lemma DrainOrderUnique(jobs: Table, ids: set<JobId>, a: seq<JobId>, b: seq<JobId>)
    requires NoTies(jobs, ids) && Enumerates(a, ids) && Enumerates(b, ids)
    requires InQueueOrder(jobs, a) && InQueueOrder(jobs, b)
    ensures a == b
  {
    EnumerationSize(a, ids);
    EnumerationSize(b, ids);
    OrdersAgree(jobs, ids, a, b, |a|);
  }
}
