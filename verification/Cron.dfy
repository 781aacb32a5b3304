/** Recurring schedules under several evaluators at once.

  An evaluation of a due schedule is a read of its row, an insert per run to fire, and an update of
  its row. Evaluations interleave freely, may crash between any two of these, and may be based on a
  row or a clock that is out of date by the time they write. */
module Cron {
  import opened Calendars
  import opened RequestIds

  /** `first` is a history variable: the next_run_at the schedule was created with. */
  datatype Schedule = Schedule(policy: MissedPolicy, next: Instant, enabled: bool, first: Instant)

  /** An evaluation in progress: the runs it still has to insert, and its own idea of the time. */
  datatype Firing = Firing(schedule: string, todo: seq<Instant>, now: Instant)

  /** `requests` lists the request ids of the jobs in the order of their insertion. */
  datatype State = State(schedules: map<string, Schedule>, requests: seq<string>, firings: map<nat, Firing>)

  datatype Action =
    | Create(id: string, policy: MissedPolicy, createdAt: Instant)
    | Toggle(id: string, enabled: bool)
    | Begin(firing: nat, id: string, dbNow: Instant, now: Instant)
    | Insert(firing: nat)
    | Advance(firing: nat)
    | Crash(firing: nat)
    | Submit(requestId: string)

  /** An insert whose request id is taken does nothing. */
  function AddRequest(requests: seq<string>, requestId: string): seq<string> {
    if requestId in requests then requests else requests + [requestId]
  }

  datatype Run = Run(calendars: string -> Calendar, actions: seq<Action>) {

    ghost predicate Valid() {
      forall id :: Increasing(calendars(id))
    }

    function Step(s: State, a: Action): State
      requires Valid()
    {
      match a
      case Create(id, policy, createdAt) =>
        if id in s.schedules then s
        else
          var first := Next(calendars(id), createdAt);
          s.(schedules := s.schedules[id := Schedule(policy, first, true, first)])
      case Toggle(id, enabled) =>
        if id in s.schedules then s.(schedules := s.schedules[id := s.schedules[id].(enabled := enabled)]) else s
      case Begin(f, id, dbNow, now) =>
        if id in s.schedules && IsDue(s.schedules[id].enabled, s.schedules[id].next, dbNow) && f !in s.firings
        then
          var todo := MissedRuns(calendars(id), s.schedules[id].policy, s.schedules[id].next, now);
          s.(firings := s.firings[f := Firing(id, todo, now)])
        else s
      case Insert(f) =>
        if f in s.firings && s.firings[f].todo != []
        then
          var firing := s.firings[f];
          s.(requests := AddRequest(s.requests, RequestId(firing.schedule, Unix(firing.todo[0]))),
          firings := s.firings[f := firing.(todo := firing.todo[1..])])
        else s
      case Advance(f) =>
        if f in s.firings && s.firings[f].todo == [] && s.firings[f].schedule in s.schedules
        then
          var id, now := s.firings[f].schedule, s.firings[f].now;
          s.(schedules := s.schedules[id := s.schedules[id].(next := Next(calendars(id), now))],
          firings := s.firings - {f})
        else s
      case Crash(f) => s.(firings := s.firings - {f})
      case Submit(requestId) => s.(requests := AddRequest(s.requests, requestId))
    }

    function At(k: nat): State
      requires Valid() && k <= |actions|
    {
      if k == 0 then State(map[], [], map[]) else Step(At(k - 1), actions[k - 1])
    }
  }

  predicate Distinct(requests: seq<string>) {
    forall i, j :: 0 <= i < j < |requests| ==> requests[i] != requests[j]
  }

  lemma AddKeepsDistinct(requests: seq<string>, requestId: string)
    requires Distinct(requests)
    ensures Distinct(AddRequest(requests, requestId))
  {
  }

  lemma StepKeepsDistinct(r: Run, s: State, a: Action)
    requires r.Valid() && Distinct(s.requests)
    ensures Distinct(r.Step(s, a).requests)
  {
    match a
    case Insert(f) =>
      if f in s.firings && s.firings[f].todo != [] {
        AddKeepsDistinct(s.requests, RequestId(s.firings[f].schedule, Unix(s.firings[f].todo[0])));
      }
    case Submit(requestId) => AddKeepsDistinct(s.requests, requestId);
    case _ =>
  }

  lemma {:induction false} NoRequestTwice(r: Run, k: nat)
    requires r.Valid() && k <= |r.actions|
    ensures Distinct(r.At(k).requests)
  {
    if k > 0 {
      NoRequestTwice(r, k - 1);
      StepKeepsDistinct(r, r.At(k - 1), r.actions[k - 1]);
    }
  }

  lemma RequestsStep(r: Run, s: State, a: Action)
    requires r.Valid()
    ensures s.requests <= r.Step(s, a).requests
  {
  }

  /** A job that was inserted stays, at its place in the order of insertion. */
  lemma {:induction false} RequestsGrow(r: Run, i: nat, k: nat)
    requires r.Valid() && i <= k <= |r.actions|
    ensures r.At(i).requests <= r.At(k).requests
    decreases k
  {
    if i < k {
      RequestsGrow(r, i, k - 1);
      RequestsStep(r, r.At(k - 1), r.actions[k - 1]);
    }
  }

  /** Each slot of each schedule has at most one job, and a job stands for at most one slot, under any
    interleaving of evaluators, crashes, stale updates and client submissions. */
  lemma OneJobPerSlot(r: Run, k: nat, i: nat, j: nat, s: string, t: string, a: Instant, b: Instant)
    requires r.Valid() && k <= |r.actions| && i < |r.At(k).requests| && j < |r.At(k).requests|
    requires r.At(k).requests[i] == RequestId(s, Unix(a)) && r.At(k).requests[j] == RequestId(t, Unix(b))
    ensures i == j <==> s == t && Unix(a) == Unix(b)
  {
    NoRequestTwice(r, k);
    if i == j {
      RequestIdInjective(s, t, Unix(a), Unix(b));
    }
  }

  /** Evaluation f was started by action b for this schedule, which was enabled and due. */
  predicate StartedBy(r: Run, b: nat, f: nat, id: string)
    requires r.Valid() && b < |r.actions|
  {
    var a := r.actions[b];
    && a.Begin? && a.firing == f && a.id == id && f !in r.At(b).firings
    && id in r.At(b).schedules && IsDue(r.At(b).schedules[id].enabled, r.At(b).schedules[id].next, a.dbNow)
  }

  /** The schedule had been created before action b. */
  predicate Exists(r: Run, b: nat, id: string) {
    exists c :: 0 <= c < b && c < |r.actions| && r.actions[c].Create? && r.actions[c].id == id
  }

  /** Action c leaves the schedule enabled: its creation, or a later toggle that enables it. */
  predicate Enables(r: Run, c: nat, id: string)
    requires c < |r.actions|
  {
    var a := r.actions[c];
    (a.Create? && a.id == id && !Exists(r, c, id)) || (a == Toggle(id, true) && Exists(r, c, id))
  }

  /** The last action before b that switched the schedule on or off left it enabled. */
  predicate EnabledAt(r: Run, b: nat, id: string)
    requires b <= |r.actions|
  {
    exists c :: 0 <= c < b && Enables(r, c, id) && forall d :: c < d < b ==> r.actions[d] != Toggle(id, false)
  }

  lemma ExistsOneMore(r: Run, b: nat, id: string)
    requires b < |r.actions|
    ensures Exists(r, b + 1, id) <==> Exists(r, b, id) || (r.actions[b].Create? && r.actions[b].id == id)
  {
  }

  lemma EnabledOneMore(r: Run, b: nat, id: string)
    requires b < |r.actions|
    ensures EnabledAt(r, b + 1, id) <==> Enables(r, b, id) || (EnabledAt(r, b, id) && r.actions[b] != Toggle(id, false))
  {
    var next := b + 1;
    if EnabledAt(r, b, id) && r.actions[b] != Toggle(id, false) {
      var c :| 0 <= c < b && Enables(r, c, id) && forall d :: c < d < b ==> r.actions[d] != Toggle(id, false);
      assert forall d :: c < d < next ==> r.actions[d] != Toggle(id, false);
    }
    if EnabledAt(r, next, id) && !Enables(r, b, id) {
      var c :| 0 <= c < next && Enables(r, c, id) && forall d :: c < d < next ==> r.actions[d] != Toggle(id, false);
      assert c < b;
    }
  }

  lemma SwitchStep(r: Run, s: State, a: Action, id: string)
    requires r.Valid()
    ensures var s' := r.Step(s, a);
            && (id in s'.schedules <==> id in s.schedules || (a.Create? && a.id == id))
            && (id in s'.schedules ==>
                  s'.schedules[id].enabled ==
                  if id in s.schedules then (if a.Toggle? && a.id == id then a.enabled else s.schedules[id].enabled)
                  else true)
  {
  }

  /** The columns say what the actions did: there is a row once the schedule was created, and it is enabled
    as the last creation or toggle left it. */
  lemma {:induction false} EnabledIff(r: Run, b: nat, id: string)
    requires r.Valid() && b <= |r.actions|
    ensures id in r.At(b).schedules <==> Exists(r, b, id)
    ensures id in r.At(b).schedules ==> (r.At(b).schedules[id].enabled <==> EnabledAt(r, b, id))
    ensures EnabledAt(r, b, id) ==> Exists(r, b, id)
  {
    if b > 0 {
      var i := b - 1;
      EnabledIff(r, i, id);
      SwitchStep(r, r.At(i), r.actions[i], id);
      ExistsOneMore(r, i, id);
      EnabledOneMore(r, i, id);
    }
  }

  /** A free evaluation starts exactly if its schedule is there, was last left enabled, and its next_run_at
    has come by the database clock. */
  lemma BeginsIff(r: Run, b: nat, f: nat, id: string)
    requires r.Valid() && b < |r.actions| && r.actions[b].Begin? && r.actions[b].firing == f && r.actions[b].id == id
    requires f !in r.At(b).firings
    ensures f in r.At(b + 1).firings
            <==> EnabledAt(r, b, id) && id in r.At(b).schedules && r.At(b).schedules[id].next <= r.actions[b].dbNow
    ensures f in r.At(b + 1).firings <==> StartedBy(r, b, f, id)
  {
    EnabledIff(r, b, id);
    assert r.At(b + 1) == r.Step(r.At(b), r.actions[b]);
  }

  lemma {:induction false} CatchupIsDue(cal: Calendar, t: Instant, now: Instant, room: nat)
    requires Increasing(cal)
    ensures forall u :: u in Catchup(cal, t, now, room) ==> u <= now
    decreases room
  {
    if t <= now && room > 0 {
      CatchupIsDue(cal, Next(cal, t), now, room - 1);
    }
  }

  /** Everything an evaluation takes on is due by one of the two clocks. */
  predicate AllDue(todo: seq<Instant>, dbNow: Instant, now: Instant) {
    forall t :: t in todo ==> t <= dbNow || t <= now
  }

  lemma BeginTakesDue(r: Run, s: State, a: Action)
    requires r.Valid() && a.Begin? && a.firing !in s.firings && a.firing in r.Step(s, a).firings
    ensures a.id in s.schedules && IsDue(s.schedules[a.id].enabled, s.schedules[a.id].next, a.dbNow)
    ensures r.Step(s, a).firings[a.firing].schedule == a.id && r.Step(s, a).firings[a.firing].now == a.now
    ensures AllDue(r.Step(s, a).firings[a.firing].todo, a.dbNow, a.now)
  {
    CatchupIsDue(r.calendars(a.id), s.schedules[a.id].next, a.now, MAX_CATCHUP);
  }

  /** Only its own start puts an evaluation in progress; later statements only use up its runs. */
  lemma OthersTakeNothing(r: Run, s: State, a: Action, f: nat)
    requires r.Valid() && f in r.Step(s, a).firings && !(f !in s.firings && a.Begin? && a.firing == f)
    ensures f in s.firings && r.Step(s, a).firings[f].schedule == s.firings[f].schedule
    ensures r.Step(s, a).firings[f].now == s.firings[f].now
    ensures forall t :: t in r.Step(s, a).firings[f].todo ==> t in s.firings[f].todo
  {
  }

  /** Nothing fires early: every run an evaluation still has to insert was due when the evaluation
    started, by the database clock or by the evaluator's own, which it keeps to its end. */
  lemma {:induction false} NothingFiresEarly(r: Run, k: nat, f: nat) returns (b: nat)
    requires r.Valid() && k <= |r.actions| && f in r.At(k).firings
    ensures b < k && StartedBy(r, b, f, r.At(k).firings[f].schedule)
    ensures r.At(k).firings[f].now == r.actions[b].now && forall i :: b < i <= k ==> f in r.At(i).firings
    ensures AllDue(r.At(k).firings[f].todo, r.actions[b].dbNow, r.actions[b].now)
  {
    var i := k - 1;
    var s, a := r.At(i), r.actions[i];
    if f !in s.firings && a.Begin? && a.firing == f {
      BeginTakesDue(r, s, a);
      b := i;
    } else {
      OthersTakeNothing(r, s, a, f);
      b := NothingFiresEarly(r, i, f);
    }
  }

  /** This slot of the schedule has a job: some job carries its request id, whether an evaluation or a
    client's own submission inserted it. */
  predicate HasJob(s: State, id: string, t: Instant) {
    RequestId(id, Unix(t)) in s.requests
  }

  /** Action i inserts a job with this request id, or would if it were not taken. */
  predicate Inserts(r: Run, i: nat, q: string)
    requires r.Valid() && i < |r.actions|
  {
    match r.actions[i]
    case Submit(requestId) => requestId == q
    case Insert(f) =>
      && f in r.At(i).firings && r.At(i).firings[f].todo != []
      && q == RequestId(r.At(i).firings[f].schedule, Unix(r.At(i).firings[f].todo[0]))
    case _ => false
  }

  lemma RequestStep(r: Run, i: nat, q: string)
    requires r.Valid() && i < |r.actions|
    ensures q in r.At(i + 1).requests <==> q in r.At(i).requests || Inserts(r, i, q)
  {
  }

  predicate Inserted(r: Run, k: nat, q: string)
    requires r.Valid() && k <= |r.actions|
  {
    exists i :: 0 <= i < k && Inserts(r, i, q)
  }

  lemma InsertedOneMore(r: Run, k: nat, q: string)
    requires r.Valid() && k < |r.actions|
    ensures Inserted(r, k + 1, q) <==> Inserted(r, k, q) || Inserts(r, k, q)
  {
  }

  /** There is a job with a request id exactly if somebody inserted one: a client, or an evaluation. */
  lemma {:induction false} RequestIff(r: Run, k: nat, q: string)
    requires r.Valid() && k <= |r.actions|
    ensures q in r.At(k).requests <==> Inserted(r, k, q)
  {
    if k > 0 {
      RequestIff(r, k - 1, q);
      RequestStep(r, k - 1, q);
      InsertedOneMore(r, k - 1, q);
    }
  }

  /** An evaluation is in progress from its start until it crashes or advances its schedule. It starts with
    the runs that its policy misses, and each insert takes the first of those left. */
  lemma FiringStep(r: Run, s: State, a: Action, f: nat)
    requires r.Valid()
    ensures var s' := r.Step(s, a);
            && (f in s'.firings <==>
                if f in s.firings
                then a != Crash(f)
                     && !(a == Advance(f) && s.firings[f].todo == [] && s.firings[f].schedule in s.schedules)
                else a.Begin? && a.firing == f && a.id in s.schedules
                     && s.schedules[a.id].enabled && s.schedules[a.id].next <= a.dbNow)
            && (f in s'.firings && f in s.firings ==>
                  s'.firings[f] == if a == Insert(f) && s.firings[f].todo != []
                                   then s.firings[f].(todo := s.firings[f].todo[1..]) else s.firings[f])
            && (f in s'.firings && f !in s.firings ==>
                  s'.firings[f] == Firing(a.id, MissedRuns(r.calendars(a.id), s.schedules[a.id].policy,
                                                           s.schedules[a.id].next, a.now), a.now))
  {
  }

  /** Each of these runs has a job or is still to be inserted. */
  predicate Handled(s: State, id: string, runs: seq<Instant>, todo: seq<Instant>) {
    forall t :: t in runs ==> HasJob(s, id, t) || t in todo
  }

  lemma HandledStep(r: Run, s: State, a: Action, f: nat, runs: seq<Instant>)
    requires r.Valid() && f in s.firings && f in r.Step(s, a).firings
    requires Handled(s, s.firings[f].schedule, runs, s.firings[f].todo)
    ensures Handled(r.Step(s, a), s.firings[f].schedule, runs, r.Step(s, a).firings[f].todo)
  {
    var todo := s.firings[f].todo;
    assert forall t :: t in todo ==> t == todo[0] || t in todo[1..];
  }

  /** The runs that the evaluation started by action b set out to fire. */
  function RunsOf(r: Run, b: nat): seq<Instant>
    requires r.Valid() && b < |r.actions| && r.actions[b].Begin? && r.actions[b].id in r.At(b).schedules
  {
    var a := r.actions[b];
    MissedRuns(r.calendars(a.id), r.At(b).schedules[a.id].policy, r.At(b).schedules[a.id].next, a.now)
  }

  lemma {:induction false} AllHandled(r: Run, b: nat, k: nat, f: nat)
    requires r.Valid() && b < k <= |r.actions| && r.actions[b].Begin? && StartedBy(r, b, f, r.actions[b].id)
    requires forall i :: b < i <= k ==> f in r.At(i).firings
    ensures r.At(k).firings[f].schedule == r.actions[b].id
    ensures Handled(r.At(k), r.actions[b].id, RunsOf(r, b), r.At(k).firings[f].todo)
    decreases k
  {
    var i := k - 1;
    assert r.At(k) == r.Step(r.At(i), r.actions[i]);
    FiringStep(r, r.At(i), r.actions[i], f);
    if b < i {
      AllHandled(r, b, i, f);
      HandledStep(r, r.At(i), r.actions[i], f, RunsOf(r, b));
    }
  }

  /** An evaluation advances its schedule only when every run that its policy missed has a job, whoever else
    is working on the schedule and whatever crashed before. */
  lemma AdvancesOnlyWhenFired(r: Run, k: nat, id: string) returns (b: nat)
    requires r.Valid() && Writes(r, k, id)
    ensures b < k && StartedBy(r, b, r.actions[k].firing, id)
    ensures forall t :: t in RunsOf(r, b) ==> HasJob(r.At(k), id, t)
  {
    b := NothingFiresEarly(r, k, r.actions[k].firing);
    AllHandled(r, b, k, r.actions[k].firing);
  }

  /** Whenever an evaluation of this RUN_ALL schedule starts, at most ten of its slots are due. */
  ghost predicate NeverCapped(r: Run, id: string)
    requires r.Valid()
  {
    forall k: nat, n: nat ::
      k < |r.actions| && r.actions[k].Begin? && StartedBy(r, k, r.actions[k].firing, id)
      && r.At(k).schedules[id].next == Slot(r.calendars(id), n)
      ==> Due(r.calendars(id), n, r.actions[k].now) <= 10
  }

  /** Every slot from `first` up to (not including) `limit` has a job or is among these runs. */
  ghost predicate Covered(r: Run, s: State, id: string, first: Instant, limit: Instant, todo: seq<Instant>) {
    forall m: nat :: first <= Slot(r.calendars(id), m) < limit ==>
                       HasJob(s, id, Slot(r.calendars(id), m)) || Slot(r.calendars(id), m) in todo
  }

  ghost predicate IsSlot(cal: Calendar, t: Instant) {
    exists n: nat :: t == Slot(cal, n)
  }

  /** What this RUN_ALL schedule and each evaluation in progress on it guarantee about its slots. */
  ghost predicate NoGaps(r: Run, s: State, id: string)
    requires r.Valid() && id in s.schedules
  {
    var sched := s.schedules[id];
    && IsSlot(r.calendars(id), sched.next)
    && Covered(r, s, id, sched.first, sched.next, [])
    && forall f :: f in s.firings && s.firings[f].schedule == id ==>
                     Covered(r, s, id, sched.first, s.firings[f].now + 1, s.firings[f].todo)
  }

  ghost predicate Inv(r: Run, s: State, id: string)
    requires r.Valid()
  {
    && (forall f :: f in s.firings && s.firings[f].schedule == id ==> id in s.schedules)
    && (id in s.schedules && s.schedules[id].policy.RunAll? ==> NoGaps(r, s, id))
  }

  lemma CoveredStill(r: Run, s: State, s': State, id: string, first: Instant, limit: Instant, todo: seq<Instant>)
    requires Covered(r, s, id, first, limit, todo) && forall q :: q in s.requests ==> q in s'.requests
    ensures Covered(r, s', id, first, limit, todo)
  {
  }

  lemma CreateKeeps(r: Run, s: State, a: Action, id: string)
    requires r.Valid() && Inv(r, s, id) && a.Create?
    ensures Inv(r, r.Step(s, a), id)
  {
    if a.id == id && id !in s.schedules {
      var n := NextIsLeast(r.calendars(id), a.createdAt);
    }
  }

  /** With at most ten due slots, the jobs there are and the runs to fire cover every slot up to now. */
  lemma BeginCovers(r: Run, s: State, id: string, first: Instant, n: nat, now: Instant)
    requires r.Valid() && Due(r.calendars(id), n, now) <= MAX_CATCHUP
    requires Covered(r, s, id, first, Slot(r.calendars(id), n), [])
    ensures Covered(r, s, id, first, now + 1, Catchup(r.calendars(id), Slot(r.calendars(id), n), now, MAX_CATCHUP))
  {
    var cal := r.calendars(id);
    var todo := Catchup(cal, Slot(cal, n), now, MAX_CATCHUP);
    CatchupIsFirstDue(cal, n, now, MAX_CATCHUP);
    forall m: nat | first <= Slot(cal, m) < now + 1
      ensures HasJob(s, id, Slot(cal, m)) || Slot(cal, m) in todo
    {
      if n <= m {
        DueCounts(cal, n, now, m);
        assert todo[m - n] == Slot(cal, m);
      } else {
        assert cal(m) < cal(n);
      }
    }
  }

  /** An evaluation that starts with at most ten due slots takes on every slot up to its own time. */
  lemma BeginKeeps(r: Run, s: State, a: Action, id: string)
    requires r.Valid() && Inv(r, s, id) && a.Begin?
    requires a.id == id && id in s.schedules && r.Step(s, a) != s ==>
               forall n: nat :: s.schedules[id].next == Slot(r.calendars(id), n) ==>
                                  Due(r.calendars(id), n, a.now) <= MAX_CATCHUP
    ensures Inv(r, r.Step(s, a), id)
  {
    var s' := r.Step(s, a);
    if id in s.schedules && s.schedules[id].policy.RunAll? && s' != s {
      var sched := s.schedules[id];
      CoveredStill(r, s, s', id, sched.first, sched.next, []);
      if a.id == id {
        var n: nat :| sched.next == Slot(r.calendars(id), n);
        BeginCovers(r, s', id, sched.first, n, a.now);
      }
      forall f | f in s.firings && s.firings[f].schedule == id
        ensures Covered(r, s', id, sched.first, s.firings[f].now + 1, s.firings[f].todo)
      {
        CoveredStill(r, s, s', id, sched.first, s.firings[f].now + 1, s.firings[f].todo);
      }
    }
  }

  lemma InsertCovers(r: Run, s: State, s': State, id: string, first: Instant, limit: Instant, todo: seq<Instant>)
    requires todo != [] && Covered(r, s, id, first, limit, todo)
    requires s'.requests == AddRequest(s.requests, RequestId(id, Unix(todo[0])))
    ensures Covered(r, s', id, first, limit, todo[1..])
  {
    forall m: nat | first <= Slot(r.calendars(id), m) < limit
      ensures HasJob(s', id, Slot(r.calendars(id), m)) || Slot(r.calendars(id), m) in todo[1..]
    {
      var t := Slot(r.calendars(id), m);
      assert HasJob(s, id, t) || t in todo;
      assert t in todo ==> t == todo[0] || t in todo[1..];
    }
  }

  lemma InsertKeeps(r: Run, s: State, a: Action, id: string)
    requires r.Valid() && Inv(r, s, id) && a.Insert?
    ensures Inv(r, r.Step(s, a), id)
  {
    var s' := r.Step(s, a);
    if id in s.schedules && s.schedules[id].policy.RunAll? && s' != s {
      var sched := s.schedules[id];
      CoveredStill(r, s, s', id, sched.first, sched.next, []);
      forall f | f in s'.firings && s'.firings[f].schedule == id
        ensures Covered(r, s', id, sched.first, s'.firings[f].now + 1, s'.firings[f].todo)
      {
        if f == a.firing {
          InsertCovers(r, s, s', id, sched.first, s.firings[f].now + 1, s.firings[f].todo);
        } else {
          CoveredStill(r, s, s', id, sched.first, s.firings[f].now + 1, s.firings[f].todo);
        }
      }
    }
  }

  /** An evaluation that has inserted all its runs may advance the schedule, forward or back. */
  lemma AdvanceKeeps(r: Run, s: State, a: Action, id: string)
    requires r.Valid() && Inv(r, s, id) && a.Advance?
    ensures Inv(r, r.Step(s, a), id)
  {
    var s' := r.Step(s, a);
    if id in s.schedules && s.schedules[id].policy.RunAll? && s' != s {
      var sched := s.schedules[id];
      if s.firings[a.firing].schedule == id {
        var now := s.firings[a.firing].now;
        var n := NextIsLeast(r.calendars(id), now);
        assert Covered(r, s, id, sched.first, now + 1, []);
        assert Covered(r, s', id, sched.first, Next(r.calendars(id), now), []);
      }
      forall f | f in s'.firings && s'.firings[f].schedule == id
        ensures Covered(r, s', id, sched.first, s'.firings[f].now + 1, s'.firings[f].todo)
      {
        CoveredStill(r, s, s', id, sched.first, s.firings[f].now + 1, s.firings[f].todo);
      }
      CoveredStill(r, s, s', id, sched.first, sched.next, []);
    }
  }

  lemma SubmitKeeps(r: Run, s: State, a: Action, id: string)
    requires r.Valid() && Inv(r, s, id) && a.Submit?
    ensures Inv(r, r.Step(s, a), id)
  {
    var s' := r.Step(s, a);
    if id in s.schedules && s.schedules[id].policy.RunAll? {
      var sched := s.schedules[id];
      CoveredStill(r, s, s', id, sched.first, sched.next, []);
      forall f | f in s'.firings && s'.firings[f].schedule == id
        ensures Covered(r, s', id, sched.first, s'.firings[f].now + 1, s'.firings[f].todo)
      {
        CoveredStill(r, s, s', id, sched.first, s.firings[f].now + 1, s.firings[f].todo);
      }
    }
  }

  lemma {:induction false} Invariant(r: Run, k: nat, id: string)
    requires r.Valid() && NeverCapped(r, id) && k <= |r.actions|
    ensures Inv(r, r.At(k), id)
  {
    if k > 0 {
      Invariant(r, k - 1, id);
      var s, a := r.At(k - 1), r.actions[k - 1];
      match a
      case Create(_, _, _) => CreateKeeps(r, s, a, id);
      case Begin(_, _, _, _) => BeginKeeps(r, s, a, id);
      case Insert(_) => InsertKeeps(r, s, a, id);
      case Advance(_) => AdvanceKeeps(r, s, a, id);
      case Submit(_) => SubmitKeeps(r, s, a, id);
      case Toggle(_, _) =>
      case Crash(_) =>
    }
  }

  /** RUN_ALL leaves no gaps: if no evaluation is ever capped, then in every reachable state every slot
    from the schedule's first up to its next_run_at has a job, however many evaluators run at once,
    crash, or write back stale next_run_at values. A job that a client submitted under a slot's request
    id counts as that slot's job. */
  lemma RunAllHasNoGaps(r: Run, k: nat, id: string, m: nat)
    requires r.Valid() && NeverCapped(r, id) && k <= |r.actions|
    requires id in r.At(k).schedules && r.At(k).schedules[id].policy.RunAll?
    requires r.At(k).schedules[id].first <= Slot(r.calendars(id), m) < r.At(k).schedules[id].next
    ensures HasJob(r.At(k), id, Slot(r.calendars(id), m))
  {
    Invariant(r, k, id);
    assert Covered(r, r.At(k), id, r.At(k).schedules[id].first, r.At(k).schedules[id].next, []);
  }

  /** A firing with one run left inserts it and advances its schedule to the slot after its own time. */
  lemma FinishFiring(r: Run, k: nat, f: nat)
    requires r.Valid() && k + 2 <= |r.actions| && r.actions[k] == Insert(f) && r.actions[k + 1] == Advance(f)
    requires f in r.At(k).firings && |r.At(k).firings[f].todo| == 1
    requires r.At(k).firings[f].schedule in r.At(k).schedules
    ensures var firing := r.At(k).firings[f];
            && r.At(k + 2).firings == r.At(k).firings - {f}
            && firing.schedule in r.At(k + 2).schedules
            && r.At(k + 2).schedules[firing.schedule].next == Next(r.calendars(firing.schedule), firing.now)
  {
    var firing := r.At(k).firings[f];
    assert firing.todo[1..] == [];
    assert r.At(k + 1) == r.Step(r.At(k), r.actions[k]);
    assert r.At(k + 1).firings == r.At(k).firings[f := firing.(todo := [])];
  }

  /** Action k is an accepted update of this schedule's next_run_at. */
  predicate Writes(r: Run, k: nat, id: string)
    requires r.Valid()
  {
    && k < |r.actions| && r.actions[k].Advance? && id in r.At(k).schedules
    && var f := r.actions[k].firing;
       f in r.At(k).firings && r.At(k).firings[f].schedule == id && r.At(k).firings[f].todo == []
  }

  /** What the clock showed when the evaluation behind update k started. */
  function ClockOf(r: Run, k: nat, id: string): Instant
    requires r.Valid() && Writes(r, k, id)
  {
    r.At(k).firings[r.actions[k].firing].now
  }

  lemma NextAfterAction(r: Run, k: nat, id: string)
    requires r.Valid() && k < |r.actions| && id in r.At(k).schedules
    ensures id in r.At(k + 1).schedules
    ensures r.At(k + 1).schedules[id].next ==
            if Writes(r, k, id) then Next(r.calendars(id), ClockOf(r, k, id)) else r.At(k).schedules[id].next
  {
  }

  /** The last update of the schedule in b..k-1. */
  predicate LastWrite(r: Run, b: nat, a: nat, k: nat, id: string)
    requires r.Valid()
  {
    b <= a < k && Writes(r, a, id) && forall c :: a < c < k ==> !Writes(r, c, id)
  }

  predicate Unwritten(r: Run, b: nat, k: nat, id: string)
    requires r.Valid()
  {
    forall c :: b <= c < k ==> !Writes(r, c, id)
  }

  lemma {:induction false} LastWriteOrNone(r: Run, b: nat, k: nat, id: string) returns (a: nat)
    requires r.Valid() && b <= k
    ensures LastWrite(r, b, a, k, id) || (a == k && Unwritten(r, b, k, id))
    decreases k
  {
    a := k;
    if b < k {
      if Writes(r, k - 1, id) {
        a := k - 1;
      } else {
        a := LastWriteOrNone(r, b, k - 1, id);
        if a == k - 1 {
          a := k;
        }
      }
    }
  }

  lemma {:induction false} NextWhileUnwritten(r: Run, b: nat, k: nat, id: string)
    requires r.Valid() && b <= k <= |r.actions| && id in r.At(b).schedules && Unwritten(r, b, k, id)
    ensures id in r.At(k).schedules && r.At(k).schedules[id].next == r.At(b).schedules[id].next
    decreases k
  {
    if b < k {
      NextWhileUnwritten(r, b, k - 1, id);
      NextAfterAction(r, k - 1, id);
    }
  }

  /** The schedule still has the value that the last update wrote, or that it had at b. */
  lemma NextSince(r: Run, b: nat, k: nat, id: string) returns (a: nat)
    requires r.Valid() && b <= k <= |r.actions| && id in r.At(b).schedules
    ensures LastWrite(r, b, a, k, id) || (a == k && Unwritten(r, b, k, id))
    ensures id in r.At(k).schedules
    ensures r.At(k).schedules[id].next
            == if a < k then Next(r.calendars(id), ClockOf(r, a, id)) else r.At(b).schedules[id].next
  {
    a := LastWriteOrNone(r, b, k, id);
    if a < k {
      NextAfterAction(r, a, id);
      NextWhileUnwritten(r, a + 1, k, id);
    } else {
      NextWhileUnwritten(r, b, k, id);
    }
  }

  predicate MovesBack(r: Run, k: nat, id: string)
    requires r.Valid() && Writes(r, k, id)
  {
    id in r.At(k + 1).schedules && r.At(k + 1).schedules[id].next < r.At(k).schedules[id].next
  }

  /** When next_run_at moves back: an evaluation's update does so exactly if another one has updated the
    schedule since it started and the last of these had a clock that had reached the slot which this one
    writes, or nobody has and its own clock was a slot or more behind the row that it read. */
  lemma AdvanceMovesBackIff(r: Run, k: nat, id: string) returns (b: nat)
    requires r.Valid() && Writes(r, k, id)
    ensures b < k && StartedBy(r, b, r.actions[k].firing, id) && r.actions[b].now == ClockOf(r, k, id)
    ensures var slot := Next(r.calendars(id), r.actions[b].now);
            MovesBack(r, k, id) <==>
            || (exists a: nat :: LastWrite(r, b, a, k, id) && slot <= ClockOf(r, a, id))
            || (slot < r.At(b).schedules[id].next && Unwritten(r, b, k, id))
  {
    b := NothingFiresEarly(r, k, r.actions[k].firing);
    var a := NextSince(r, b, k, id);
    NextAfterAction(r, k, id);
    if a < k {
      NextOrder(r.calendars(id), r.actions[b].now, ClockOf(r, a, id));
      assert forall c: nat :: LastWrite(r, b, c, k, id) ==> c == a;
    }
  }

  /** An evaluator whose clock has reached the next_run_at it read moves it back only behind another. */
  lemma MovesBackOnlyBehindAnother(r: Run, k: nat, id: string) returns (b: nat)
    requires r.Valid() && Writes(r, k, id)
    ensures b < k && StartedBy(r, b, r.actions[k].firing, id)
    ensures r.At(b).schedules[id].next <= r.actions[b].now ==>
              (MovesBack(r, k, id) <==>
               exists a: nat :: LastWrite(r, b, a, k, id)
                                && Next(r.calendars(id), r.actions[b].now) <= ClockOf(r, a, id))
  {
    b := AdvanceMovesBackIff(r, k, id);
    var n := NextIsLeast(r.calendars(id), r.actions[b].now);
  }

  /** A schedule is created; the first evaluator reads it when it falls due, and another one a slot later,
    which finishes first. */
  ghost predicate TwoEvaluators(r: Run, id: string, n: nat, createdAt: Instant)
    requires r.Valid()
  {
    var a, b := Slot(r.calendars(id), n), Slot(r.calendars(id), n + 1);
    && Next(r.calendars(id), createdAt) == a
    && r.actions == [Create(id, Skip, createdAt), Begin(0, id, a, a), Begin(1, id, b, b),
                     Insert(1), Advance(1), Insert(0), Advance(0)]
  }

  lemma BeginsSkip(r: Run, s: State, f: nat, id: string, now: Instant)
    requires r.Valid() && id in s.schedules && f !in s.firings && s.schedules[id].policy.Skip?
    requires IsDue(s.schedules[id].enabled, s.schedules[id].next, now)
    ensures r.Step(s, Begin(f, id, now, now))
            == s.(firings := s.firings[f := Firing(id, [s.schedules[id].next], now)])
  {
  }

  lemma BothRead(r: Run, id: string, n: nat, createdAt: Instant)
    requires r.Valid() && TwoEvaluators(r, id, n, createdAt)
    ensures var a, b := Slot(r.calendars(id), n), Slot(r.calendars(id), n + 1);
            && r.At(3).schedules == map[id := Schedule(Skip, a, true, a)]
            && r.At(3).firings == map[0 := Firing(id, [a], a), 1 := Firing(id, [a], b)]
  {
    var a, b := Slot(r.calendars(id), n), Slot(r.calendars(id), n + 1);
    assert a < b by {
      assert r.calendars(id)(n) < r.calendars(id)(n + 1);
    }
    var first := State(map[id := Schedule(Skip, a, true, a)], [], map[]);
    assert r.At(1) == r.Step(r.At(0), r.actions[0]) == first;
    BeginsSkip(r, first, 0, id, a);
    assert r.At(2) == r.Step(first, r.actions[1]);
    BeginsSkip(r, r.At(2), 1, id, b);
    assert r.At(3) == r.Step(r.At(2), r.actions[2]);
  }

  /** Nothing stops two evaluators from working on the same due schedule, nor the slower one from moving
    next_run_at back behind what the faster one wrote. */
  lemma StaleAdvanceMovesBack(r: Run, id: string, n: nat, createdAt: Instant)
    requires r.Valid() && TwoEvaluators(r, id, n, createdAt)
    ensures id in r.At(5).schedules && r.At(5).schedules[id].next == Slot(r.calendars(id), n + 2)
    ensures id in r.At(7).schedules && r.At(7).schedules[id].next == Slot(r.calendars(id), n + 1)
  {
    BothRead(r, id, n, createdAt);
    NextOfSlot(r.calendars(id), n);
    NextOfSlot(r.calendars(id), n + 1);
    FinishFiring(r, 3, 1);
    FinishFiring(r, 5, 0);
  }
}
