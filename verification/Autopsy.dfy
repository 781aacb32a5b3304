/** The forensic report of a dead-lettered job, and what its attempt list really counts. */
module Autopsy {
  import opened Jobs
  import opened Traces
  import opened Leases
  import opened Accounting
  import Store

  const MAX_ROWS: nat := 100

  /** A row of the audit log of one job. */
  datatype LogRow = LogRow(from: string, to: string, worker: string, reason: string, at: Time)

  datatype Attempt = Attempt(number: nat, worker: string, error: string, failedAt: Time)

  datatype TimelineEvent = TimelineEvent(at: Time, event: string, worker: string)

  /** `elapsed` is absent when there are too few rows to measure it. */
  datatype Report = Report(
    totalAttempts: nat,
    attempts: seq<Attempt>,
    timeline: seq<TimelineEvent>,
    elapsed: Option<Time>)

  /** The rows taken for failed attempts. */
  predicate EndsAttempt(r: LogRow) {
    (r.to == "PENDING" && r.from != "") || r.to == "DEAD_LETTER"
  }

  function FailureRows(rows: seq<LogRow>): (failures: seq<LogRow>)
    ensures |failures| <= |rows|
  {
    if rows == [] then []
    else FailureRows(rows[..|rows| - 1]) + if EndsAttempt(rows[|rows| - 1]) then [rows[|rows| - 1]] else []
  }

  /** One attempt per failure row, in order, numbered from one, with secrets scrubbed. */
  predicate ListsAttempts(attempts: seq<Attempt>, rows: seq<LogRow>, scrub: string -> string) {
    var failures := FailureRows(rows);
    && |attempts| == |failures|
    && forall i :: 0 <= i < |failures| ==>
         attempts[i] == Attempt(i + 1, failures[i].worker, scrub(failures[i].reason), failures[i].at)
  }

  function Describe(r: LogRow, scrub: string -> string): TimelineEvent {
    var event := r.from + " → " + r.to;
    TimelineEvent(r.at, if r.reason != "" then event + ": " + scrub(r.reason) else event, r.worker)
  }

  function FirstRows(log: seq<LogRow>): (rows: seq<LogRow>)
    ensures |rows| == if |log| <= MAX_ROWS then |log| else MAX_ROWS
  {
    if |log| <= MAX_ROWS then log else log[..MAX_ROWS]
  }

  lemma DescribeEvent(r: LogRow, scrub: string -> string)
    ensures Describe(r, scrub).event
            == r.from + " → " + r.to + if r.reason == "" then "" else ": " + scrub(r.reason)
  {
    var event := r.from + " → " + r.to;
    if r.reason == "" {
      assert event + "" == event;
    } else {
      assert event + ": " + scrub(r.reason) == event + (": " + scrub(r.reason));
    }
  }

  /** Which rows are taken for failed attempts: exactly those that go back to PENDING from a named state or
    to DEAD_LETTER, each at the place that the failures before it leave to it. */
  lemma {:induction false} FailureRowAt(rows: seq<LogRow>, j: nat)
    requires j < |rows|
    ensures var place := |FailureRows(rows[..j])|;
            if (rows[j].to == "PENDING" && rows[j].from != "") || rows[j].to == "DEAD_LETTER"
            then place < |FailureRows(rows)| && FailureRows(rows)[place] == rows[j]
                 && |FailureRows(rows[..j + 1])| == place + 1
            else |FailureRows(rows[..j + 1])| == place
    decreases |rows|
  {
    assert rows[..j + 1][..j] == rows[..j];
    var n := |rows| - 1;
    if j < n {
      FailureRowAt(rows[..n], j);
      assert rows[..n][..j] == rows[..j] && rows[..n][..j + 1] == rows[..j + 1];
    } else {
      assert rows[..j + 1] == rows;
    }
  }

  method BuildTimeline(transitions: seq<LogRow>, scrub: string -> string) returns (timeline: seq<TimelineEvent>)
    ensures |timeline| == |transitions|
    ensures forall i :: 0 <= i < |timeline| ==> timeline[i] == Describe(transitions[i], scrub)
    ensures forall i :: 0 <= i < |timeline| ==>
              && timeline[i].at == transitions[i].at && timeline[i].worker == transitions[i].worker
              && timeline[i].event
                 == transitions[i].from + " → " + transitions[i].to
                    + if transitions[i].reason == "" then "" else ": " + scrub(transitions[i].reason)
  {
    timeline := [];
    for i := 0 to |transitions|
      invariant |timeline| == i && forall k :: 0 <= k < i ==> timeline[k] == Describe(transitions[k], scrub)
    {
      var t := transitions[i];
      var event := t.from + " → " + t.to;
      if t.reason != "" {
        event := event + ": " + scrub(t.reason);
      }
      timeline := timeline + [TimelineEvent(t.at, event, t.worker)];
    }
    forall i | 0 <= i < |timeline|
      ensures timeline[i].event
              == transitions[i].from + " → " + transitions[i].to
                 + if transitions[i].reason == "" then "" else ": " + scrub(transitions[i].reason)
    {
      DescribeEvent(transitions[i], scrub);
    }
  }

  lemma ListsOneMore(attempts: seq<Attempt>, rows: seq<LogRow>, row: LogRow, scrub: string -> string)
    requires ListsAttempts(attempts, rows, scrub)
    ensures var last := Attempt(|attempts| + 1, row.worker, scrub(row.reason), row.at);
            var more := if EndsAttempt(row) then [last] else [];
            ListsAttempts(attempts + more, rows + [row], scrub)
  {
    assert (rows + [row])[..|rows|] == rows;
  }

  method ExtractAttempts(transitions: seq<LogRow>, scrub: string -> string) returns (attempts: seq<Attempt>)
    ensures ListsAttempts(attempts, transitions, scrub)
    ensures var failures := FailureRows(transitions);
            && |attempts| == |failures|
            && forall i :: 0 <= i < |failures| ==>
                 && attempts[i].number == i + 1 && attempts[i].worker == failures[i].worker
                 && attempts[i].error == scrub(failures[i].reason) && attempts[i].failedAt == failures[i].at
  {
    attempts := [];
    var attemptNum := 0;
    for i := 0 to |transitions|
      invariant attemptNum == |attempts| && ListsAttempts(attempts, transitions[..i], scrub)
    {
      var t := transitions[i];
      ListsOneMore(attempts, transitions[..i], t, scrub);
      assert transitions[..i + 1] == transitions[..i] + [t];
      if (t.to == "PENDING" && t.from != "") || t.to == "DEAD_LETTER" {
        attemptNum := attemptNum + 1;
        attempts := attempts + [Attempt(attemptNum, t.worker, scrub(t.reason), t.at)];
      } else {
        assert attempts + [] == attempts;
      }
    }
    assert transitions[..|transitions|] == transitions;
  }

  /** Builds the report from the job's retry count and its audit log, oldest row first. */
  method GenerateAutopsy(retryCount: nat, log: seq<LogRow>, scrub: string -> string) returns (report: Report)
    ensures var rows := if |log| <= 100 then log else log[..100];
            && report.totalAttempts == retryCount
            && ListsAttempts(report.attempts, rows, scrub)
            && |report.timeline| == |rows|
            && (forall i :: 0 <= i < |rows| ==> report.timeline[i] == Describe(rows[i], scrub))
            && report.elapsed == if |rows| < 2 then None else Some(rows[|rows| - 1].at - rows[0].at)
  {
    var transitions := FirstRows(log);
    var timeline := BuildTimeline(transitions, scrub);
    var attempts := ExtractAttempts(transitions, scrub);
    var elapsed := None;
    if |transitions| >= 2 {
      elapsed := Some(transitions[|transitions| - 1].at - transitions[0].at);
    }
    report := Report(retryCount, attempts, timeline, elapsed);
  }

  /** An audit row of which only the states matter. */
  function Entry(from: string, to: string): LogRow {
    LogRow(from, to, "", "", 0)
  }

  /** The audit rows the store writes for one statement. */
  function RowsFor(cfg: Config, r: Row, op: Op, now: Time): (rows: seq<LogRow>)
    ensures |rows| <= 1
  {
    var states := Store.StateChange(cfg, r, op, now);
    if states == [] then [] else [Entry(states[0].0, states[0].1)]
  }

  /** The rows that each statement of the trace writes. */
  function Parts(t: Trace): (parts: seq<seq<LogRow>>)
    ensures |parts| == |t.steps|
    ensures forall i :: 0 <= i < |parts| ==> parts[i] == RowsFor(t.cfg, t.At(i), t.steps[i].op, t.steps[i].at)
  {
    seq(|t.steps|, i requires 0 <= i < |t.steps| => RowsFor(t.cfg, t.At(i), t.steps[i].op, t.steps[i].at))
  }

  /** The row of the creation, then the first n parts. */
  function Joined(parts: seq<seq<LogRow>>, n: nat): seq<LogRow>
    requires n <= |parts|
  {
    if n == 0 then [Entry("", "PENDING")] else Joined(parts, n - 1) + parts[n - 1]
  }

  /** The complete audit log of a trace, in order. */
  function AuditLog(t: Trace, k: nat): seq<LogRow>
    requires k <= |t.steps|
  {
    Joined(Parts(t), k)
  }

  predicate SameStates(log: seq<LogRow>, audit: seq<LogRow>) {
    |log| == |audit| && forall i :: 0 <= i < |log| ==> log[i].from == audit[i].from && log[i].to == audit[i].to
  }

  /** A stored log that is complete and in order: it has the from and to columns of the trace's log. */
  predicate Records(log: seq<LogRow>, t: Trace) {
    SameStates(log, AuditLog(t, |t.steps|))
  }

  /** How many of the first n rows are taken for failed attempts. */
  function FailureCount(rows: seq<LogRow>, n: nat): nat
    requires n <= |rows|
  {
    if n == 0 then 0 else FailureCount(rows, n - 1) + if EndsAttempt(rows[n - 1]) then 1 else 0
  }

  lemma {:induction false} SamePrefix(a: seq<LogRow>, b: seq<LogRow>, n: nat)
    requires n <= |a| && n <= |b| && forall i :: 0 <= i < n ==> a[i] == b[i]
    ensures FailureCount(a, n) == FailureCount(b, n)
  {
    if n > 0 {
      SamePrefix(a, b, n - 1);
    }
  }

  lemma {:induction false} CountsFailures(rows: seq<LogRow>)
    ensures |FailureRows(rows)| == FailureCount(rows, |rows|)
  {
    if rows != [] {
      var n := |rows| - 1;
      CountsFailures(rows[..n]);
      SamePrefix(rows[..n], rows, n);
    }
  }

  lemma OneMoreRow(audit: seq<LogRow>, row: LogRow)
    ensures FailureCount(audit + [row], |audit| + 1)
            == FailureCount(audit, |audit|) + if EndsAttempt(row) then 1 else 0
  {
    SamePrefix(audit, audit + [row], |audit|);
  }

  lemma {:induction false} FailuresMatch(log: seq<LogRow>, audit: seq<LogRow>)
    requires SameStates(log, audit)
    ensures |FailureRows(log)| == |FailureRows(audit)|
  {
    if log != [] {
      FailuresMatch(log[..|log| - 1], audit[..|audit| - 1]);
    }
  }

  /** Statement k ended a grant, by an accepted failure or a reclaim. */
  predicate EndsGrant(t: Trace, k: nat) {
    t.Accepted(k) && (t.steps[k].op.FailUpdate? || t.steps[k].op.Reclaim?)
  }

  function EndsOf(t: Trace): (ends: seq<bool>)
    ensures |ends| == |t.steps| && forall i :: 0 <= i < |ends| ==> ends[i] == EndsGrant(t, i)
  {
    seq(|t.steps|, i requires 0 <= i < |t.steps| => EndsGrant(t, i))
  }

  function Trues(bits: seq<bool>, n: nat): nat
    requires n <= |bits|
  {
    if n == 0 then 0 else Trues(bits, n - 1) + if bits[n - 1] then 1 else 0
  }

  function EndCount(t: Trace, k: nat): nat
    requires k <= |t.steps|
  {
    Count(t, k, Kind.Failures) + Count(t, k, Kind.Reclaims)
  }

  lemma EndCountStep(t: Trace, i: nat, k: nat)
    requires k == i + 1 <= |t.steps|
    ensures EndCount(t, k) == EndCount(t, i) + if EndsGrant(t, i) then 1 else 0
  {
    CountStep(t, i, k, Kind.Failures);
    CountStep(t, i, k, Kind.Reclaims);
  }

  lemma {:induction false} EndedCounts(t: Trace, ends: seq<bool>, k: nat)
    requires k <= |t.steps| && ends == EndsOf(t)
    ensures Trues(ends, k) == EndCount(t, k)
  {
    if k > 0 {
      EndedCounts(t, ends, k - 1);
      EndCountStep(t, k - 1, k);
      assert ends[k - 1] == EndsGrant(t, k - 1);
    }
  }

  /** Only accepted failures and reclaims write a failure row. */
  lemma FailureRowIff(cfg: Config, r: Row, op: Op, now: Time)
    ensures var rows := RowsFor(cfg, r, op, now);
            (rows != [] && EndsAttempt(rows[0])) <==> Accepts(r, op, now) && (op.FailUpdate? || op.Reclaim?)
  {
  }

  predicate EndRow(part: seq<LogRow>) {
    part != [] && EndsAttempt(part[0])
  }

  lemma JoinOneMore(parts: seq<seq<LogRow>>, n: nat)
    requires n < |parts| && |parts[n]| <= 1
    ensures var log, log' := Joined(parts, n), Joined(parts, n + 1);
            FailureCount(log', |log'|) == FailureCount(log, |log|) + if EndRow(parts[n]) then 1 else 0
  {
    var log := Joined(parts, n);
    if parts[n] != [] {
      assert parts[n] == [parts[n][0]];
      OneMoreRow(log, parts[n][0]);
    } else {
      assert log + parts[n] == log;
    }
  }

  lemma {:induction false} JoinedFailures(parts: seq<seq<LogRow>>, ends: seq<bool>, n: nat)
    requires n <= |parts| == |ends|
    requires forall i :: 0 <= i < |parts| ==> |parts[i]| <= 1 && EndRow(parts[i]) == ends[i]
    ensures FailureCount(Joined(parts, n), |Joined(parts, n)|) == Trues(ends, n)
  {
    if n > 0 {
      JoinedFailures(parts, ends, n - 1);
      JoinOneMore(parts, n - 1);
    }
  }

  /** Every grant that has ended left exactly one failure row, whether it failed or was reclaimed. */
  lemma FailureRowPerEndedGrant(t: Trace, k: nat)
    requires k <= |t.steps|
    ensures |FailureRows(AuditLog(t, k))| == Count(t, k, Kind.Failures) + Count(t, k, Kind.Reclaims)
  {
    forall i | 0 <= i < |t.steps|
      ensures |Parts(t)[i]| <= 1 && EndRow(Parts(t)[i]) == EndsOf(t)[i]
    {
      FailureRowIff(t.cfg, t.At(i), t.steps[i].op, t.steps[i].at);
    }
    JoinedFailures(Parts(t), EndsOf(t), k);
    CountsFailures(AuditLog(t, k));
    EndedCounts(t, EndsOf(t), k);
  }

  /** When the log fits the cap, the report of a dead-lettered job lists one attempt per lease it was
    granted; that is the number of attempts the report states exactly if the job was never reclaimed. */
  lemma AttemptsBelowCap(t: Trace, log: seq<LogRow>)
    requires t.Valid() && Records(log, t) && |log| <= MAX_ROWS && t.JobAt(|t.steps|).status.DeadLetter?
    ensures |FailureRows(FirstRows(log))| == t.JobAt(|t.steps|).version
    ensures |FailureRows(FirstRows(log))| == t.JobAt(|t.steps|).retryCount <==> Count(t, |t.steps|, Kind.Reclaims) == 0
  {
    var n := |t.steps|;
    FailuresMatch(log, AuditLog(t, n));
    FailureRowPerEndedGrant(t, n);
    GrantConservation(t, n);
  }

  /** Without mark-running entries, the rows after the first alternate: a claim, then its end. */
  predicate Alternates(audit: seq<LogRow>) {
    && |audit| >= 1 && audit[0] == Entry("", "PENDING")
    && forall i :: 1 <= i < |audit| ==>
         if i % 2 == 1 then audit[i] == Entry("PENDING", "DISPATCHED")
         else audit[i].from == "RUNNING" && EndsAttempt(audit[i])
  }

  /** The log alternates and is as long as the row's version and status say. */
  predicate LogFits(audit: seq<LogRow>, j: Job) {
    Alternates(audit) && !j.status.Running? && |audit| == 2 * j.version + if j.status.Dispatched? then 0 else 1
  }

  lemma LogFitsStep(cfg: Config, audit: seq<LogRow>, r: Row, op: Op, now: Time)
    requires RowInv(r.job) && LogFits(audit, r.job)
    requires Accepts(r, op, now) ==> !op.MarkRunning? && !op.Complete? && !op.Cancel?
    ensures LogFits(audit + RowsFor(cfg, r, op, now), Step(cfg, r, op, now).job)
  {
    if RowsFor(cfg, r, op, now) == [] {
      assert audit + [] == audit;
    }
  }

  /** The traces that have had no mark-running, completion or cancellation, as before a dead letter. */
  lemma OnlyClaimsAndEnds(t: Trace, k: nat)
    requires k < |t.steps| && Count(t, k + 1, Starts) == 0
    requires !t.JobAt(k + 1).status.Succeeded? && !t.JobAt(k + 1).status.Cancelled?
    ensures Count(t, k, Starts) == 0
    ensures t.Accepted(k) ==> var op := t.steps[k].op; !op.MarkRunning? && !op.Complete? && !op.Cancel?
  {
  }

  lemma NotDoneBefore(t: Trace, k: nat)
    requires k < |t.steps| && !t.JobAt(k + 1).status.Succeeded? && !t.JobAt(k + 1).status.Cancelled?
    ensures !t.JobAt(k).status.Succeeded? && !t.JobAt(k).status.Cancelled?
  {
  }

  lemma {:induction false} LogAlternates(t: Trace, k: nat)
    requires t.Valid() && k <= |t.steps|
    requires Count(t, k, Starts) == 0 && !t.JobAt(k).status.Succeeded? && !t.JobAt(k).status.Cancelled?
    ensures LogFits(AuditLog(t, k), t.JobAt(k))
  {
    if k > 0 {
      var i := k - 1;
      OnlyClaimsAndEnds(t, i);
      NotDoneBefore(t, i);
      RowInvariant(t, i);
      LogAlternates(t, i);
      LogFitsStep(t.cfg, AuditLog(t, i), t.At(i), t.steps[i].op, t.steps[i].at);
    }
  }

  lemma {:induction false} AlternatingFailures(audit: seq<LogRow>, n: nat)
    requires Alternates(audit) && 1 <= n <= |audit|
    ensures FailureCount(audit, n) == (n - 1) / 2
  {
    if n > 1 {
      AlternatingFailures(audit, n - 1);
    } else {
      assert FailureCount(audit, 0) == 0 && !EndsAttempt(audit[0]);
    }
  }

  /** A stored log that alternates shows an attempt for every second row after the first. */
  lemma FirstRowsFailures(log: seq<LogRow>, audit: seq<LogRow>)
    requires SameStates(log, audit) && Alternates(audit)
    ensures |FailureRows(FirstRows(log))| == if |log| <= 100 then (|log| - 1) / 2 else 49
  {
    var shown := FirstRows(log);
    var n := |shown|;
    FailuresMatch(shown, audit[..n]);
    CountsFailures(audit[..n]);
    SamePrefix(audit[..n], audit, n);
    AlternatingFailures(audit, n);
  }

  /** With no mark-running entries, as the system is wired, the cap of 100 rows hides every attempt
    after the 49th: the report lists min(lease_version, 49) attempts. */
  lemma AttemptsCapped(t: Trace, log: seq<LogRow>)
    requires t.Valid() && Records(log, t) && t.JobAt(|t.steps|).status.DeadLetter?
    requires Count(t, |t.steps|, Starts) == 0
    ensures var v := t.JobAt(|t.steps|).version;
            |FailureRows(FirstRows(log))| == if v <= 49 then v else 49
  {
    LogAlternates(t, |t.steps|);
    FirstRowsFailures(log, AuditLog(t, |t.steps|));
  }
}
