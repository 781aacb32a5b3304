/** The workers table: registration, heartbeats, draining, death, and the choice of the next worker. */
module Workers {
  import opened Jobs

  datatype WorkerStatus = Active | Dead | Draining

  datatype WorkerRow = WorkerRow(status: WorkerStatus, lastHeartbeat: Time, activeJobs: nat, maxJobs: int)

  type Fleet = map<WorkerId, WorkerRow>

  /** `Heartbeat` is the statement alone; `Beat` is a worker's whole heartbeat, which registers the worker
    again when the statement is refused. */
  datatype FleetOp =
    | Register(id: WorkerId, maxJobs: int)
    | Heartbeat(id: WorkerId, activeJobs: nat)
    | Beat(id: WorkerId, activeJobs: nat, maxJobs: int)
    | MarkDead(id: WorkerId)
    | Drain(id: WorkerId)

  predicate IsActive(fleet: Fleet, id: WorkerId) {
    id in fleet && fleet[id].status.Active?
  }

  /** The table after one statement. Registering again keeps the reported load and the capacity. */
  function FleetStep(fleet: Fleet, op: FleetOp, now: Time): Fleet
    decreases op.Beat?
  {
    match op
    case Register(id, maxJobs) =>
      if id in fleet then fleet[id := fleet[id].(status := Active, lastHeartbeat := now)]
      else fleet[id := WorkerRow(Active, now, 0, maxJobs)]
    case Heartbeat(id, activeJobs) =>
      if IsActive(fleet, id) then fleet[id := fleet[id].(lastHeartbeat := now, activeJobs := activeJobs)] else fleet
    case Beat(id, activeJobs, maxJobs) =>
      FleetStep(fleet, if IsActive(fleet, id) then Heartbeat(id, activeJobs) else Register(id, maxJobs), now)
    case MarkDead(id) => if IsActive(fleet, id) then fleet[id := fleet[id].(status := Dead)] else fleet
    case Drain(id) => if IsActive(fleet, id) then fleet[id := fleet[id].(status := Draining)] else fleet
  }

  function Fleets(fleet: Fleet, ops: seq<(FleetOp, Time)>, k: nat): Fleet
    requires k <= |ops|
  {
    if k == 0 then fleet else FleetStep(Fleets(fleet, ops, k - 1), ops[k - 1].0, ops[k - 1].1)
  }

  predicate Available(fleet: Fleet, id: WorkerId) {
    IsActive(fleet, id) && fleet[id].activeJobs < fleet[id].maxJobs
  }

  /** Worker a is at most as loaded as worker b, as a fraction of capacity. */
  predicate AtMostAsLoaded(a: WorkerRow, b: WorkerRow) {
    a.activeJobs * b.maxJobs <= b.activeJobs * a.maxJobs
  }

  /** That is the order of the query: active_jobs divided by max_jobs. */
  lemma LoadIsFraction(a: WorkerRow, b: WorkerRow)
    requires 0 < a.maxJobs && 0 < b.maxJobs
    ensures AtMostAsLoaded(a, b) <==>
              a.activeJobs as real / a.maxJobs as real <= b.activeJobs as real / b.maxJobs as real
  {
    var x, y := a.activeJobs as real / a.maxJobs as real, b.activeJobs as real / b.maxJobs as real;
    var p, q := a.maxJobs as real, b.maxJobs as real;
    assert x * p == a.activeJobs as real && y * q == b.activeJobs as real;
    assert (a.activeJobs * b.maxJobs) as real == (x * p) * q;
    assert (b.activeJobs * a.maxJobs) as real == (y * q) * p;
    if x <= y {
      ScaleReal(x, y, p * q);
    } else {
      ScaleReal(y, x, p * q);
      assert (x - y) * (p * q) > 0.0;
    }
  }

  lemma ScaleReal(x: real, y: real, c: real)
    requires x <= y && 0.0 < c
    ensures x * c <= y * c
  {
    assert (y - x) * c >= 0.0;
  }

  predicate IsLeastLoaded(fleet: Fleet, id: WorkerId) {
    && Available(fleet, id)
    && forall other :: other in fleet && Available(fleet, other) ==> AtMostAsLoaded(fleet[id], fleet[other])
  }

  lemma ScaleUp(x: int, y: int, c: int)
    requires x <= y && 0 <= c
    ensures c * x <= c * y
  {
  }

  lemma ScaleDown(x: int, y: int, c: int)
    requires c * x <= c * y && 0 < c
    ensures x <= y
  {
    if y < x {
      ScaleUp(y + 1, x, c);
    }
  }

  lemma LoadTransitive(a: WorkerRow, b: WorkerRow, c: WorkerRow)
    requires a.activeJobs < a.maxJobs && b.activeJobs < b.maxJobs && c.activeJobs < c.maxJobs
    requires AtMostAsLoaded(a, b) && AtMostAsLoaded(b, c)
    ensures AtMostAsLoaded(a, c)
  {
    ScaleUp(a.activeJobs * b.maxJobs, b.activeJobs * a.maxJobs, c.maxJobs);
    ScaleUp(b.activeJobs * c.maxJobs, c.activeJobs * b.maxJobs, a.maxJobs);
    assert b.maxJobs * (a.activeJobs * c.maxJobs) == c.maxJobs * (a.activeJobs * b.maxJobs);
    assert b.maxJobs * (c.activeJobs * a.maxJobs) == a.maxJobs * (c.activeJobs * b.maxJobs);
    assert c.maxJobs * (b.activeJobs * a.maxJobs) == a.maxJobs * (b.activeJobs * c.maxJobs);
    ScaleDown(a.activeJobs * c.maxJobs, c.activeJobs * a.maxJobs, b.maxJobs);
  }

  lemma {:induction false} SomeLeastLoaded(fleet: Fleet, ids: set<WorkerId>) returns (least: WorkerId)
    requires ids != {} && forall id :: id in ids ==> Available(fleet, id)
    ensures least in ids && least in fleet
    ensures forall other :: other in ids ==> other in fleet && AtMostAsLoaded(fleet[least], fleet[other])
    decreases |ids|
  {
    var id :| id in ids;
    if ids == {id} {
      least := id;
    } else {
      var rest := SomeLeastLoaded(fleet, ids - {id});
      least := if AtMostAsLoaded(fleet[id], fleet[rest]) then id else rest;
      forall other | other in ids
        ensures other in fleet && AtMostAsLoaded(fleet[least], fleet[other])
      {
        if other != id && least == id {
          LoadTransitive(fleet[id], fleet[rest], fleet[other]);
        }
      }
    }
  }

  /** A registration, or a heartbeat that leads to one if need be. */
  predicate Activates(op: FleetOp, id: WorkerId) {
    (op.Register? || op.Beat?) && op.id == id
  }

  predicate Stops(op: FleetOp, id: WorkerId) {
    (op.Drain? || op.MarkDead?) && op.id == id
  }

  /** Statement i activated the worker, and nothing among the first k has stopped it since. */
  predicate ActiveSince(ops: seq<(FleetOp, Time)>, i: nat, k: nat, id: WorkerId)
    requires k <= |ops|
  {
    i < k && Activates(ops[i].0, id) && forall n :: i < n < k ==> !Stops(ops[n].0, id)
  }

  lemma ActiveAfterOp(fleet: Fleet, op: FleetOp, now: Time, id: WorkerId)
    ensures IsActive(FleetStep(fleet, op, now), id)
            <==> Activates(op, id) || (IsActive(fleet, id) && !Stops(op, id))
  {
  }

  /** How long draining lasts: a worker that was drained (or marked dead) is ACTIVE again exactly when it
    has registered or sent a heartbeat since, and has not been drained or marked dead after that. */
  lemma {:induction false} DrainedActiveIff(fleet: Fleet, ops: seq<(FleetOp, Time)>, d: nat, k: nat, id: WorkerId)
    requires d < k <= |ops| && Stops(ops[d].0, id)
    ensures IsActive(Fleets(fleet, ops, k), id) <==> exists i: nat :: d < i && ActiveSince(ops, i, k, id)
    decreases k
  {
    var n := k - 1;
    var op := ops[n].0;
    ActiveAfterOp(Fleets(fleet, ops, n), op, ops[n].1, id);
    if d < n {
      DrainedActiveIff(fleet, ops, d, n, id);
      if Activates(op, id) {
        assert ActiveSince(ops, n, k, id);
      }
      forall i: nat | d < i < n
        ensures ActiveSince(ops, i, k, id) <==> ActiveSince(ops, i, n, id) && !Stops(op, id)
      {
      }
    }
  }

  class WorkerStore {
    var workers: Fleet

    constructor ()
      ensures workers == map[]
    {
      workers := map[];
    }

    method RegisterWorker(id: WorkerId, maxJobs: int, now: Time)
      modifies this
      ensures workers == FleetStep(old(workers), Register(id, maxJobs), now)
      ensures IsActive(workers, id) && workers[id].lastHeartbeat == now
      ensures workers == old(workers)[id := if id in old(workers)
                                            then old(workers)[id].(status := Active, lastHeartbeat := now)
                                            else WorkerRow(Active, now, 0, maxJobs)]
      ensures id in old(workers) ==> workers[id].activeJobs == old(workers)[id].activeJobs
      ensures id in old(workers) ==> workers[id].maxJobs == old(workers)[id].maxJobs
      ensures id !in old(workers) ==> workers[id].activeJobs == 0 && workers[id].maxJobs == maxJobs
    {
      if id in workers {
        workers := workers[id := workers[id].(status := Active, lastHeartbeat := now)];
      } else {
        workers := workers[id := WorkerRow(Active, now, 0, maxJobs)];
      }
    }

    /** Refused unless the worker is ACTIVE; a refused worker is told to register. */
    method RecordHeartbeat(id: WorkerId, activeJobs: nat, now: Time) returns (ok: bool)
      modifies this
      ensures ok == IsActive(old(workers), id)
      ensures ok <==> id in old(workers) && old(workers)[id].status.Active?
      ensures ok ==> workers == old(workers)[id := old(workers)[id].(lastHeartbeat := now, activeJobs := activeJobs)]
      ensures workers == FleetStep(old(workers), Heartbeat(id, activeJobs), now)
      ensures !ok ==> workers == old(workers)
      ensures ok ==> IsActive(workers, id) && workers[id].activeJobs == activeJobs && workers[id].lastHeartbeat == now
    {
      ok := id in workers && workers[id].status == Active;
      if ok {
        workers := workers[id := workers[id].(lastHeartbeat := now, activeJobs := activeJobs)];
      }
    }

    method MarkWorkerDead(id: WorkerId, now: Time)
      modifies this
      ensures workers == FleetStep(old(workers), MarkDead(id), now)
      ensures workers == if id in old(workers) && old(workers)[id].status.Active?
                         then old(workers)[id := old(workers)[id].(status := Dead)] else old(workers)
    {
      if id in workers && workers[id].status == Active {
        workers := workers[id := workers[id].(status := Dead)];
      }
    }

    method DrainWorker(id: WorkerId, now: Time)
      modifies this
      ensures workers == FleetStep(old(workers), Drain(id), now)
      ensures workers == if id in old(workers) && old(workers)[id].status.Active?
                         then old(workers)[id := old(workers)[id].(status := Draining)] else old(workers)
      ensures !IsActive(workers, id)
    {
      if id in workers && workers[id].status == Active {
        workers := workers[id := workers[id].(status := Draining)];
      }
    }

    method GetLeastLoadedWorker() returns (least: Option<WorkerId>)
      ensures least.None? <==> forall id :: id in workers ==> !Available(workers, id)
      ensures least.None? <==> forall id :: id in workers && workers[id].status.Active? ==>
                                              workers[id].maxJobs <= workers[id].activeJobs
      ensures least.Some? ==> IsLeastLoaded(workers, least.value)
      ensures least.Some? ==>
                && least.value in workers && workers[least.value].status.Active?
                && workers[least.value].activeJobs < workers[least.value].maxJobs
                && forall id ::
                     id in workers && workers[id].status.Active? && workers[id].activeJobs < workers[id].maxJobs
                     ==> AtMostAsLoaded(workers[least.value], workers[id])
    {
      var open := set id | id in workers && Available(workers, id);
      if open == {} {
        least := None;
        assert forall id :: id in workers && Available(workers, id) ==> id in open;
      } else {
        ghost var some := SomeLeastLoaded(workers, open);
        assert IsLeastLoaded(workers, some);
        var id :| id in workers && IsLeastLoaded(workers, id);
        least := Some(id);
      }
    }
  }

  /** The scheduler's handler: a heartbeat that announces draining drains the worker, any other one is
    recorded, or refused with the advice to register. */
  method HandleHeartbeat(store: WorkerStore, id: WorkerId, activeJobs: nat, status: string, now: Time)
    returns (success: bool, message: string)
    modifies store
    ensures store.workers == FleetStep(old(store.workers),
                                       if status == "DRAINING" then Drain(id) else Heartbeat(id, activeJobs), now)
    ensures success <==> status == "DRAINING" || IsActive(old(store.workers), id)
    ensures message == if status == "DRAINING" then "DRAINING_ACK" else if success then "OK" else "RE_REGISTER"
  {
    if status == "DRAINING" {
      store.DrainWorker(id, now);
      return true, "DRAINING_ACK";
    }
    success := store.RecordHeartbeat(id, activeJobs, now);
    message := if success then "OK" else "RE_REGISTER";
  }

  /** A worker's heartbeat. It never announces draining, and its refusal makes the worker register, so
    every heartbeat leaves the worker ACTIVE, draining or not. */
  method SendHeartbeat(store: WorkerStore, id: WorkerId, activeJobs: nat, maxJobs: int, now: Time)
    modifies store
    ensures store.workers == FleetStep(old(store.workers), Beat(id, activeJobs, maxJobs), now)
    ensures IsActive(store.workers, id)
    ensures id in old(store.workers) && !IsActive(old(store.workers), id) ==>
              (Available(store.workers, id) <==> old(store.workers)[id].activeJobs < old(store.workers)[id].maxJobs)
  {
    var success, message := HandleHeartbeat(store, id, activeJobs, "ACTIVE", now);
    if !success && message == "RE_REGISTER" {
      store.RegisterWorker(id, maxJobs, now);
    }
  }
}
