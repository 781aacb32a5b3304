/** Cron calendars, and which missed runs a due schedule fires.

  A calendar lists the slots of a cron expression as Unix seconds; the parsing of the expression is
  abstracted to the list, which is infinite and strictly increasing. Times are in nanoseconds. */
module Calendars {

  /** A moment in nanoseconds, as the evaluator's clock has it. */
  type Instant = int
  const NANOS: int := 1_000_000_000
  const MAX_CATCHUP: nat := 10

  type Calendar = nat -> int

  ghost predicate Increasing(cal: Calendar) {
    forall i: nat, k: nat :: i < k ==> cal(i) < cal(k)
  }

  function Slot(cal: Calendar, n: nat): Instant {
    cal(n) * NANOS
  }

  function Unix(t: Instant): int {
    t / NANOS
  }

  /** A slot's Unix second is the one the calendar lists; other moments are rounded down. */
  lemma UnixIsSecond(cal: Calendar, n: nat, t: Instant)
    ensures Unix(Slot(cal, n)) == cal(n)
    ensures Unix(t) * 1_000_000_000 <= t < (Unix(t) + 1) * 1_000_000_000
  {
  }

  /** A schedule is due when it is enabled and its next_run_at has come. */
  predicate IsDue(enabled: bool, next: Instant, now: Instant) {
    enabled && next <= now
  }

  function NextFrom(cal: Calendar, n: nat, t: Instant): Instant
    requires Increasing(cal)
    decreases t - Slot(cal, n)
  {
    if Slot(cal, n) > t then Slot(cal, n) else NextFrom(cal, n + 1, t)
  }

  /** The least slot strictly after t. */
  function Next(cal: Calendar, t: Instant): Instant
    requires Increasing(cal)
  {
    NextFrom(cal, 0, t)
  }

  lemma {:induction false} NextFromIsLeast(cal: Calendar, n: nat, t: Instant) returns (m: nat)
    requires Increasing(cal)
    ensures n <= m && NextFrom(cal, n, t) == Slot(cal, m) > t
    ensures forall k: nat :: n <= k < m ==> Slot(cal, k) <= t
    decreases t - Slot(cal, n)
  {
    if Slot(cal, n) > t {
      m := n;
    } else {
      m := NextFromIsLeast(cal, n + 1, t);
    }
  }

  /** Next is a slot after t, and every earlier slot is at or before t. */
  lemma NextIsLeast(cal: Calendar, t: Instant) returns (m: nat)
    requires Increasing(cal)
    ensures Next(cal, t) == Slot(cal, m) > t
    ensures forall k: nat :: Slot(cal, k) < Next(cal, t) <==> Slot(cal, k) <= t
  {
    m := NextFromIsLeast(cal, 0, t);
    forall k: nat
      ensures Slot(cal, k) < Next(cal, t) <==> Slot(cal, k) <= t
    {
      if k > m {
        assert cal(m) < cal(k);
      }
    }
  }

  lemma NextOrder(cal: Calendar, s: Instant, t: Instant)
    requires Increasing(cal)
    ensures Next(cal, s) < Next(cal, t) <==> Next(cal, s) <= t
  {
    var n := NextIsLeast(cal, s);
    var m := NextIsLeast(cal, t);
  }

  lemma NextOfSlot(cal: Calendar, n: nat)
    requires Increasing(cal)
    ensures Next(cal, Slot(cal, n)) == Slot(cal, n + 1)
  {
    var m := NextIsLeast(cal, Slot(cal, n));
    assert cal(n) < cal(n + 1);
    if m > n + 1 {
      assert cal(n + 1) < cal(m);
    }
  }

  /** How many slots from the n-th on are due at `now`. */
  function Due(cal: Calendar, n: nat, now: Instant): nat
    requires Increasing(cal)
    decreases now - Slot(cal, n)
  {
    if Slot(cal, n) > now then 0 else 1 + Due(cal, n + 1, now)
  }

  lemma {:induction false} DueCounts(cal: Calendar, n: nat, now: Instant, m: nat)
    requires Increasing(cal) && n <= m
    ensures Slot(cal, m) <= now <==> m < n + Due(cal, n, now)
    decreases now - Slot(cal, n)
  {
    if Slot(cal, n) > now {
      assert n < m ==> cal(n) < cal(m);
    } else if n < m {
      DueCounts(cal, n + 1, now, m);
    }
  }

  datatype MissedPolicy = Skip | RunOnce | RunAll | Unknown

  /** The catch-up list: runs from t on while they are due, at most `room` of them. */
  function Catchup(cal: Calendar, t: Instant, now: Instant, room: nat): seq<Instant>
    requires Increasing(cal)
    decreases room
  {
    if t > now || room == 0 then [] else [t] + Catchup(cal, Next(cal, t), now, room - 1)
  }

  function MissedRuns(cal: Calendar, policy: MissedPolicy, next: Instant, now: Instant): seq<Instant>
    requires Increasing(cal)
  {
    match policy
    case RunAll => Catchup(cal, next, now, MAX_CATCHUP)
    case _ => [next]
  }

  /** One round of the catch-up loop moves the head of what is left to the runs collected so far. */
  lemma CatchupMoves(cal: Calendar, runs: seq<Instant>, t: Instant, now: Instant, room: nat)
    requires Increasing(cal) && t <= now && 0 < room
    ensures runs + Catchup(cal, t, now, room) == runs + [t] + Catchup(cal, Next(cal, t), now, room - 1)
  {
  }

  /** The catch-up loop of the RUN_ALL policy, with its cap. */
  method CatchUp(cal: Calendar, next: Instant, now: Instant) returns (runs: seq<Instant>)
    requires Increasing(cal)
    ensures runs == Catchup(cal, next, now, 10)
  {
    runs := [];
    var runTime := next;
    while runTime <= now
      invariant |runs| < MAX_CATCHUP
      invariant runs + Catchup(cal, runTime, now, MAX_CATCHUP - |runs|) == Catchup(cal, next, now, MAX_CATCHUP)
      decreases MAX_CATCHUP - |runs|
    {
      CatchupMoves(cal, runs, runTime, now, MAX_CATCHUP - |runs|);
      runs := runs + [runTime];
      if |runs| >= MAX_CATCHUP {
        return;
      }
      runTime := Next(cal, runTime);
    }
  }

  /** Determines which runs of a due schedule to fire. */
  method ComputeMissedRuns(cal: Calendar, policy: MissedPolicy, next: Instant, now: Instant)
    returns (runs: seq<Instant>)
    requires Increasing(cal)
    ensures runs == MissedRuns(cal, policy, next, now)
    ensures runs == if policy.RunAll? then Catchup(cal, next, now, 10) else [next]
  {
    match policy
    case Skip => runs := [next];
    case RunOnce => runs := [next];
    case RunAll => runs := CatchUp(cal, next, now);
    case Unknown => runs := [next];
  }

  function Min(a: nat, b: nat): nat {
    if a <= b then a else b
  }

  /** RUN_ALL fires exactly the first min(room, k) of the k due slots, in order. */
  lemma {:induction false} CatchupIsFirstDue(cal: Calendar, n: nat, now: Instant, room: nat)
    requires Increasing(cal)
    ensures var runs := Catchup(cal, Slot(cal, n), now, room);
            && |runs| == Min(room, Due(cal, n, now))
            && forall i :: 0 <= i < |runs| ==> runs[i] == Slot(cal, n + i)
    decreases room
  {
    if Slot(cal, n) <= now && room > 0 {
      NextOfSlot(cal, n);
      CatchupIsFirstDue(cal, n + 1, now, room - 1);
      var rest := Catchup(cal, Slot(cal, n + 1), now, room - 1);
      assert Catchup(cal, Slot(cal, n), now, room) == [Slot(cal, n)] + rest;
    }
  }

  /** A later evaluation from the same next_run_at fires an extension of what an earlier one fired. */
  lemma {:induction false} LaterCatchupExtends(cal: Calendar, t: Instant, now: Instant, later: Instant, room: nat)
    requires Increasing(cal) && now <= later
    ensures Catchup(cal, t, now, room) <= Catchup(cal, t, later, room)
    decreases room
  {
    if t <= now && room > 0 {
      LaterCatchupExtends(cal, Next(cal, t), now, later, room - 1);
    }
  }

  /** After RUN_ALL has fired and the schedule has advanced past `now`, nothing below the new
    next_run_at was skipped exactly when no more than ten slots were due. */
  lemma CatchupCoversIff(cal: Calendar, n: nat, now: Instant)
    requires Increasing(cal)
    ensures (forall m: nat :: n <= m && Slot(cal, m) < Next(cal, now) ==>
               Slot(cal, m) in MissedRuns(cal, RunAll, Slot(cal, n), now))
            <==> Due(cal, n, now) <= 10
  {
    var runs, due := MissedRuns(cal, RunAll, Slot(cal, n), now), Due(cal, n, now);
    CatchupIsFirstDue(cal, n, now, MAX_CATCHUP);
    var next := NextIsLeast(cal, now);
    if due <= MAX_CATCHUP {
      forall m: nat | n <= m && Slot(cal, m) < Next(cal, now)
        ensures Slot(cal, m) in runs
      {
        DueCounts(cal, n, now, m);
        assert runs[m - n] == Slot(cal, m);
      }
    } else {
      var m := n + MAX_CATCHUP;
      DueCounts(cal, n, now, m);
      forall i | 0 <= i < |runs|
        ensures runs[i] != Slot(cal, m)
      {
        assert cal(n + i) < cal(m);
      }
      assert Slot(cal, m) < Next(cal, now);
    }
  }

  /** SKIP and RUN_ONCE fire one run, the oldest; nothing else is skipped exactly when at most one slot
    was due. */
  lemma SingleRunCoversIff(cal: Calendar, policy: MissedPolicy, n: nat, now: Instant)
    requires Increasing(cal) && !policy.RunAll?
    ensures MissedRuns(cal, policy, Slot(cal, n), now) == [Slot(cal, n)]
    ensures (forall m: nat :: n <= m && Slot(cal, m) < Next(cal, now) ==>
               Slot(cal, m) in MissedRuns(cal, policy, Slot(cal, n), now))
            <==> Due(cal, n, now) <= 1
  {
    var next := NextIsLeast(cal, now);
    assert cal(n) < cal(n + 1);
    DueCounts(cal, n, now, n + 1);
    forall m: nat | n <= m && Slot(cal, m) <= now
      ensures m < n + Due(cal, n, now)
    {
      DueCounts(cal, n, now, m);
    }
    if Due(cal, n, now) > 1 {
      assert Slot(cal, n + 1) < Next(cal, now) && Slot(cal, n + 1) !in [Slot(cal, n)];
    }
  }
}
