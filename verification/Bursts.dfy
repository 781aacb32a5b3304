/** The window bound of the evicting limiter is approached: a tenant that uses up its burst and comes back
  just after each cleanup gets a whole burst every time, whatever the rate. */
module Bursts {
  import opened RateLimit

  function Longer(g: Log, e: Event): Log {
    g.(events := g.events + [e])
  }

  lemma {:induction false} PrefixSame(g: Log, e: Event, k: nat)
    requires k <= |g.events|
    ensures Longer(g, e).At(k, true) == g.At(k, true)
    ensures Longer(g, e).Admissions("t", 0, k, true) == g.Admissions("t", 0, k, true)
  {
    if k > 0 {
      PrefixSame(g, e, k - 1);
    }
  }

  lemma OneMoreEvent(g: Log, e: Event)
    ensures var n := |g.events|;
            && Longer(g, e).At(n + 1, true)
               == (match e
                   case Request(tenant, at) => AfterRequest(g.limits, g.At(n, true), tenant, at)
                   case Cleanup(at) => AfterCleanup(g.limits, g.At(n, true), at))
            && Longer(g, e).Admissions("t", 0, n + 1, true)
               == g.Admissions("t", 0, n, true)
                  + if e.Request? && e.tenant == "t" && Admits(g.limits, g.At(n, true), "t", e.at) then 1 else 0
  {
    PrefixSame(g, e, |g.events|);
  }

  /** The history starts at zero and ends at `at`. */
  predicate Spans(g: Log, at: real) {
    && g.Timed() && 0.0 <= at && (forall i :: 0 <= i < |g.events| ==> g.events[i].at <= at)
    && (g.events != [] ==> g.events[0].at == 0.0 && g.events[|g.events| - 1].at == at)
  }

  lemma SpansOneMore(g: Log, e: Event, at: real)
    requires Spans(g, at) && at <= e.at && (g.events == [] ==> e.at == 0.0)
    ensures Spans(Longer(g, e), e.at)
  {
  }

  /** Since the last cleanup the tenant has spent m of its n tokens, at one moment; `count` of its requests
    have been admitted in all. */
  predicate Spent(g: Log, n: nat, m: nat, at: real, count: nat) {
    && g.limits.burst == n as real && m <= n
    && g.At(|g.events|, true) == (if m == 0 then map[] else map["t" := Bucket((n - m) as real, at)])
    && g.Admissions("t", 0, |g.events|, true) == count
  }

  lemma OneMoreRequest(g: Log, n: nat, m: nat, at: real, count: nat)
    requires Spent(g, n, m, at, count) && m < n
    ensures Spent(Longer(g, Request("t", at)), n, m + 1, at, count + 1)
  {
    OneMoreEvent(g, Request("t", at));
    if m > 0 {
      SameInstant(g.limits, g.At(|g.events|, true), "t", at);
    }
  }

  lemma OneMoreCleanup(g: Log, n: nat, at: real, later: real, count: nat)
    requires Spent(g, n, n, at, count) && g.limits.tick < later - at
    ensures Spent(Longer(g, Cleanup(later)), n, 0, later, count)
  {
    OneMoreEvent(g, Cleanup(later));
  }

  /** The rest of the burst, all at once. */
  lemma {:induction false} Burst(g: Log, n: nat, m: nat, at: real, count: nat) returns (g': Log)
    requires Spent(g, n, m, at, count) && Spans(g, at) && (g.events == [] ==> at == 0.0)
    ensures g'.limits == g.limits && Spent(g', n, n, at, count + (n - m)) && Spans(g', at)
    ensures g.events != [] || m < n ==> g'.events != []
    decreases n - m
  {
    g' := g;
    if m < n {
      OneMoreRequest(g, n, m, at, count);
      SpansOneMore(g, Request("t", at), at);
      g' := Burst(Longer(g, Request("t", at)), n, m + 1, at, count + 1);
    }
  }

  function Moment(gap: real, j: nat): real {
    j as real * gap
  }

  lemma NextMoment(gap: real, j: nat)
    ensures Moment(gap, j + 1) == Moment(gap, j) + gap
  {
  }

  /** For every j, some history with `gap` between its bursts admits j whole bursts in (j - 1) * gap. */
  lemma {:induction false} EvictedBurstsReached(l: Limits, n: nat, gap: real, j: nat) returns (g: Log)
    requires l.burst == n as real && 1 <= n && 1 <= j && 0.0 <= l.tick < gap
    ensures g.limits == l && Spans(g, Moment(gap, j - 1)) && g.events != []
    ensures Spent(g, n, n, Moment(gap, j - 1), j * n)
    decreases j
  {
    if j == 1 {
      g := Burst(Log(l, []), n, 0, 0.0, 0);
    } else {
      var at, later := Moment(gap, j - 2), Moment(gap, j - 1);
      g := EvictedBurstsReached(l, n, gap, j - 1);
      NextMoment(gap, j - 2);
      OneMoreCleanup(g, n, at, later, (j - 1) * n);
      SpansOneMore(g, Cleanup(later), at);
      g := Burst(Longer(g, Cleanup(later)), n, 0, later, (j - 1) * n);
      assert (j - 1) * n + n == j * n;
    }
  }
}
