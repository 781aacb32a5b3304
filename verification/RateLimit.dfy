/** The per-tenant token-bucket limiter: lazy refill, and eviction of idle buckets.

  Token counts and seconds are float64 in the program and exact reals here. */
module RateLimit {

  datatype Limits = Limits(rate: real, burst: real, tick: real)

  datatype Bucket = Bucket(tokens: real, lastRefill: real)

  type Buckets = map<string, Bucket>

  /** The tokens the steady rate earns between two moments. */
  function Earned(rate: real, from: real, to: real): real {
    (to - from) * rate
  }

  /** The stored tokens plus the refill since then, capped. */
  function Refilled(rate: real, burst: real, b: Bucket, now: real): real {
    var tokens := b.tokens + Earned(rate, b.lastRefill, now);
    if tokens > burst then burst else tokens
  }

  /** The tokens the steady rate has earned by time t. */
  function Credit(rate: real, t: real): real {
    t * rate
  }

  lemma EarnedIsCredit(rate: real, from: real, to: real)
    ensures Earned(rate, from, to) == Credit(rate, to) - Credit(rate, from)
  {
  }

  lemma CreditGrows(rate: real, from: real, to: real)
    requires 0.0 <= rate && from <= to
    ensures Credit(rate, from) <= Credit(rate, to)
  {
    assert (to - from) * rate >= 0.0;
  }

  lemma RefillIsCredit(rate: real, burst: real, b: Bucket, now: real)
    ensures Refilled(rate, burst, b, now)
            == var tokens := b.tokens + Credit(rate, now) - Credit(rate, b.lastRefill);
               if tokens > burst then burst else tokens
  {
    EarnedIsCredit(rate, b.lastRefill, now);
  }

  /** The tokens a request finds; a tenant without a bucket gets a full one. */
  function Level(l: Limits, m: Buckets, tenant: string, now: real): real {
    if tenant in m then Refilled(l.rate, l.burst, m[tenant], now) else l.burst
  }

  predicate Admits(l: Limits, m: Buckets, tenant: string, now: real) {
    Level(l, m, tenant, now) >= 1.0
  }

  function AfterRequest(l: Limits, m: Buckets, tenant: string, now: real): Buckets {
    m[tenant := Bucket(Level(l, m, tenant, now) - (if Admits(l, m, tenant, now) then 1.0 else 0.0), now)]
  }

  predicate Idle(l: Limits, b: Bucket, now: real) {
    now - b.lastRefill > l.tick
  }

  function AfterCleanup(l: Limits, m: Buckets, now: real): Buckets {
    map tenant | tenant in m && !Idle(l, m[tenant], now) :: m[tenant]
  }

  datatype Event = Request(tenant: string, at: real) | Cleanup(at: real)

  /** A history of requests of all tenants and of cleanup passes. `evict` says whether cleanup passes
    take effect; without it buckets live forever. */
  datatype Log = Log(limits: Limits, events: seq<Event>) {

    predicate Timed() {
      forall i, k :: 0 <= i <= k < |events| ==> events[i].at <= events[k].at
    }

    function At(k: nat, evict: bool): Buckets
      requires k <= |events|
    {
      if k == 0 then map[]
      else
        match events[k - 1]
        case Request(tenant, at) => AfterRequest(limits, At(k - 1, evict), tenant, at)
        case Cleanup(at) => if evict then AfterCleanup(limits, At(k - 1, evict), at) else At(k - 1, evict)
    }

    predicate Asks(k: nat, tenant: string) {
      k < |events| && events[k].Request? && events[k].tenant == tenant
    }

    predicate Admitted(k: nat, tenant: string, evict: bool) {
      Asks(k, tenant) && Admits(limits, At(k, evict), tenant, events[k].at)
    }

    /** How many of the tenant's requests among events i..k-1 were admitted. */
    function Admissions(tenant: string, i: nat, k: nat, evict: bool): nat
      requires i <= k <= |events|
      decreases k
    {
      if i == k then 0 else Admissions(tenant, i, k - 1, evict) + if Admitted(k - 1, tenant, evict) then 1 else 0
    }

    /** What the limits allow from event i until `now`: the burst plus the steady rate. */
    function Allowance(i: nat, now: real): real
      requires i < |events|
    {
      limits.burst + Credit(limits.rate, now) - Credit(limits.rate, events[i].at)
    }

    /** What is left of that allowance before event k. */
    function Room(tenant: string, i: nat, k: nat, now: real, evict: bool): real
      requires i <= k <= |events| && i < |events|
    {
      Allowance(i, now) - Admissions(tenant, i, k, evict) as real
    }

    /** Cleanup pass c deletes the tenant's bucket. */
    predicate Evicts(c: nat, tenant: string, evict: bool) {
      && evict && c < |events| && events[c].Cleanup?
      && tenant in At(c, evict) && Idle(limits, At(c, evict)[tenant], events[c].at)
    }

    /** The tenant asks at i, and before event k its bucket is not deleted after that. */
    predicate Live(i: nat, k: nat, tenant: string, evict: bool) {
      Asks(i, tenant) && forall c :: i <= c < k ==> !Evicts(c, tenant, evict)
    }
  }

  /** x is the least room that the tenant's requests among events 0..n-1 leave at time `now`, of those
    that its bucket still remembers. */
  predicate Tightest(g: Log, tenant: string, n: nat, k: nat, x: real, now: real, evict: bool)
    requires n <= k + 1 && n <= |g.events| && k <= |g.events|
  {
    && (forall i {:trigger g.Room(tenant, i, k, now, evict)} ::
          0 <= i < n && i <= k && g.Live(i, k, tenant, evict) ==> x <= g.Room(tenant, i, k, now, evict))
    && exists i {:trigger g.Room(tenant, i, k, now, evict)} ::
         0 <= i < n && i <= k && g.Live(i, k, tenant, evict) && x == g.Room(tenant, i, k, now, evict)
  }

  /** A stored bucket is the tightest of the windows that start at the tenant's earlier requests since the
    bucket was made. */
  predicate BucketInv(g: Log, k: nat, tenant: string, evict: bool)
    requires k <= |g.events|
  {
    var m := g.At(k, evict);
    if tenant in m then Tightest(g, tenant, k, k, m[tenant].tokens, m[tenant].lastRefill, evict)
    else NoneLive(g, k, tenant, evict)
  }

  predicate NoneLive(g: Log, k: nat, tenant: string, evict: bool) {
    forall i :: 0 <= i < k ==> !g.Live(i, k, tenant, evict)
  }

  lemma TightestLater(g: Log, tenant: string, k: nat, x: real, from: real, to: real, evict: bool)
    requires k <= |g.events| && Tightest(g, tenant, k, k, x, from, evict)
    ensures Tightest(g, tenant, k, k, x + Credit(g.limits.rate, to) - Credit(g.limits.rate, from), to, evict)
  {
    var refill := Credit(g.limits.rate, to) - Credit(g.limits.rate, from);
    forall i | 0 <= i < k && g.Live(i, k, tenant, evict)
      ensures g.Room(tenant, i, k, to, evict) == g.Room(tenant, i, k, from, evict) + refill
    {
    }
  }

  /** A request's own window is the whole burst. */
  lemma TightestWithSelf(g: Log, tenant: string, k: nat, x: real, evict: bool)
    requires g.Asks(k, tenant) && Tightest(g, tenant, k, k, x, g.events[k].at, evict)
    ensures Tightest(g, tenant, k + 1, k, if x > g.limits.burst then g.limits.burst else x, g.events[k].at, evict)
  {
    var now := g.events[k].at;
    assert g.Room(tenant, k, k, now, evict) == g.limits.burst && g.Live(k, k, tenant, evict);
    var i :| 0 <= i < k && g.Live(i, k, tenant, evict) && x == g.Room(tenant, i, k, now, evict);
  }

  lemma RefilledIsTightest(g: Log, k: nat, tenant: string, b: Bucket, evict: bool)
    requires g.Asks(k, tenant) && Tightest(g, tenant, k, k, b.tokens, b.lastRefill, evict)
    ensures Tightest(g, tenant, k + 1, k, Refilled(g.limits.rate, g.limits.burst, b, g.events[k].at), g.events[k].at,
                     evict)
  {
    var now := g.events[k].at;
    TightestLater(g, tenant, k, b.tokens, b.lastRefill, now, evict);
    TightestWithSelf(g, tenant, k, b.tokens + Credit(g.limits.rate, now) - Credit(g.limits.rate, b.lastRefill), evict);
    RefillIsCredit(g.limits.rate, g.limits.burst, b, now);
  }

  /** What request k finds is the tightest window over all remembered requests and itself. */
  lemma LevelIsTightest(g: Log, k: nat, tenant: string, evict: bool)
    requires g.Asks(k, tenant) && BucketInv(g, k, tenant, evict)
    ensures var now := g.events[k].at;
            Tightest(g, tenant, k + 1, k, Level(g.limits, g.At(k, evict), tenant, now), now, evict)
  {
    var m := g.At(k, evict);
    if tenant in m {
      RefilledIsTightest(g, k, tenant, m[tenant], evict);
    } else {
      assert g.Room(tenant, k, k, g.events[k].at, evict) == g.limits.burst && g.Live(k, k, tenant, evict);
    }
  }

  lemma LiveOneMore(g: Log, i: nat, k: nat, tenant: string, evict: bool)
    requires i <= k
    ensures g.Live(i, k + 1, tenant, evict) <==> g.Live(i, k, tenant, evict) && !g.Evicts(k, tenant, evict)
  {
  }

  /** An event that does not evict takes the same from every window at once: a token if it admits. */
  lemma TightestAfterEvent(g: Log, tenant: string, n: nat, k: nat, x: real, now: real, evict: bool)
    requires n <= k + 1 && k < |g.events| && !g.Evicts(k, tenant, evict) && Tightest(g, tenant, n, k, x, now, evict)
    ensures Tightest(g, tenant, n, k + 1, x - (if g.Admitted(k, tenant, evict) then 1.0 else 0.0), now, evict)
  {
    var spent, next := if g.Admitted(k, tenant, evict) then 1.0 else 0.0, k + 1;
    forall i | 0 <= i < n
      ensures g.Room(tenant, i, next, now, evict) == g.Room(tenant, i, k, now, evict) - spent
      ensures g.Live(i, next, tenant, evict) <==> g.Live(i, k, tenant, evict)
    {
      LiveOneMore(g, i, k, tenant, evict);
    }
    var i :| 0 <= i < n && g.Live(i, k, tenant, evict) && x == g.Room(tenant, i, k, now, evict);
    assert g.Live(i, next, tenant, evict) && x - spent == g.Room(tenant, i, next, now, evict);
    assert Tightest(g, tenant, n, next, x - spent, now, evict);
  }

  lemma AskedBucket(g: Log, tenant: string, k: nat, evict: bool)
    requires g.Asks(k, tenant) && BucketInv(g, k, tenant, evict)
    ensures BucketInv(g, k + 1, tenant, evict)
  {
    var now := g.events[k].at;
    var level := Level(g.limits, g.At(k, evict), tenant, now);
    LevelIsTightest(g, k, tenant, evict);
    TightestAfterEvent(g, tenant, k + 1, k, level, now, evict);
    assert g.At(k + 1, evict) == AfterRequest(g.limits, g.At(k, evict), tenant, now);
  }

  lemma EvictedBucket(g: Log, tenant: string, k: nat, evict: bool)
    requires g.Evicts(k, tenant, evict)
    ensures BucketInv(g, k + 1, tenant, evict)
  {
    assert g.At(k + 1, evict) == AfterCleanup(g.limits, g.At(k, evict), g.events[k].at);
    NoneLiveOneMore(g, tenant, k, evict);
  }

  lemma NoneLiveOneMore(g: Log, tenant: string, k: nat, evict: bool)
    requires g.Evicts(k, tenant, evict) || (NoneLive(g, k, tenant, evict) && !g.Asks(k, tenant))
    ensures NoneLive(g, k + 1, tenant, evict)
  {
    var next := k + 1;
    forall i | 0 <= i < next
      ensures !g.Live(i, next, tenant, evict)
    {
      LiveOneMore(g, i, k, tenant, evict);
    }
  }

  lemma BucketAfterOther(g: Log, tenant: string, k: nat, evict: bool)
    requires k < |g.events| && !g.Asks(k, tenant) && !g.Evicts(k, tenant, evict)
    ensures tenant in g.At(k + 1, evict) <==> tenant in g.At(k, evict)
    ensures tenant in g.At(k, evict) ==> g.At(k + 1, evict)[tenant] == g.At(k, evict)[tenant]
  {
  }

  /** A last request that is not one of the tenant's adds no window. */
  lemma TightestWithOther(g: Log, tenant: string, k: nat, x: real, now: real, evict: bool)
    requires k < |g.events| && !g.Asks(k, tenant) && Tightest(g, tenant, k, k + 1, x, now, evict)
    ensures Tightest(g, tenant, k + 1, k + 1, x, now, evict)
  {
    assert !g.Live(k, k + 1, tenant, evict);
    var i :| 0 <= i < k && g.Live(i, k + 1, tenant, evict) && x == g.Room(tenant, i, k + 1, now, evict);
  }

  /** Other tenants' requests, and cleanup passes that spare it, leave a tenant's bucket as it was. */
  lemma SparedBucket(g: Log, tenant: string, k: nat, evict: bool)
    requires k < |g.events| && !g.Asks(k, tenant) && !g.Evicts(k, tenant, evict) && BucketInv(g, k, tenant, evict)
    ensures BucketInv(g, k + 1, tenant, evict)
  {
    BucketAfterOther(g, tenant, k, evict);
    if tenant in g.At(k, evict) {
      var b := g.At(k, evict)[tenant];
      TightestAfterEvent(g, tenant, k, k, b.tokens, b.lastRefill, evict);
      TightestWithOther(g, tenant, k, b.tokens, b.lastRefill, evict);
    } else {
      NoneLiveOneMore(g, tenant, k, evict);
    }
  }

  lemma {:induction false} BucketInvariant(g: Log, k: nat, tenant: string, evict: bool)
    requires k <= |g.events|
    ensures BucketInv(g, k, tenant, evict)
  {
    if k > 0 {
      var i := k - 1;
      BucketInvariant(g, i, tenant, evict);
      if g.Asks(i, tenant) {
        AskedBucket(g, tenant, i, evict);
      } else if g.Evicts(i, tenant, evict) {
        EvictedBucket(g, tenant, i, evict);
      } else {
        SparedBucket(g, tenant, i, evict);
      }
    }
  }

  /** There is room for one more admission now in every window that starts at a request of the tenant. */
  predicate RoomForOne(g: Log, k: nat, tenant: string, evict: bool)
    requires k < |g.events|
  {
    forall i :: 0 <= i <= k && g.Asks(i, tenant) ==>
                  1.0 + g.Admissions(tenant, i, k, evict) as real <= g.Allowance(i, g.events[k].at)
  }

  /** The same, for the windows that start after the tenant's bucket was last deleted. */
  predicate RoomSinceEviction(g: Log, k: nat, tenant: string, evict: bool)
    requires k < |g.events|
  {
    forall i :: 0 <= i <= k && g.Live(i, k, tenant, evict) ==>
                  1.0 + g.Admissions(tenant, i, k, evict) as real <= g.Allowance(i, g.events[k].at)
  }

  /** The limiter is exactly a sliding-window rule, whatever its settings: a request is admitted if and
    only if, for it and every earlier request of its tenant since its bucket was last deleted, the
    admissions since then leave room for one more under burst + rate * elapsed. */
  lemma WindowRuleSinceEviction(g: Log, k: nat, tenant: string, evict: bool)
    requires g.Asks(k, tenant)
    ensures g.Admitted(k, tenant, evict) <==> RoomSinceEviction(g, k, tenant, evict)
  {
    BucketInvariant(g, k, tenant, evict);
    LevelIsTightest(g, k, tenant, evict);
    var now := g.events[k].at;
    var level := Level(g.limits, g.At(k, evict), tenant, now);
    var least :| 0 <= least <= k && g.Live(least, k, tenant, evict) && level == g.Room(tenant, least, k, now, evict);
    forall i | 0 <= i <= k && g.Live(i, k, tenant, evict)
      ensures level <= g.Allowance(i, now) - g.Admissions(tenant, i, k, evict) as real
    {
      assert level <= g.Room(tenant, i, k, now, evict);
    }
  }

  lemma WindowRuleKept(g: Log, k: nat, tenant: string)
    requires g.Asks(k, tenant)
    ensures g.Admitted(k, tenant, false) <==> RoomForOne(g, k, tenant, false)
  {
    WindowRuleSinceEviction(g, k, tenant, false);
    assert forall i :: 0 <= i <= k ==> (g.Live(i, k, tenant, false) <==> g.Asks(i, tenant));
  }

  /** With no eviction, and also with it if an idle tick refills a burst, the rule counts every earlier
    request of the tenant. */
  lemma WindowRule(g: Log, k: nat, tenant: string, evict: bool)
    requires g.Asks(k, tenant) && (evict ==> g.Timed() && Refills(g.limits))
    ensures g.Admitted(k, tenant, evict) <==> RoomForOne(g, k, tenant, evict)
  {
    WindowRuleKept(g, k, tenant);
    if evict {
      EvictionInvisible(g, k, tenant);
      forall i | 0 <= i <= k && g.Asks(i, tenant)
        ensures g.Admissions(tenant, i, k, true) == g.Admissions(tenant, i, k, false)
      {
        AdmissionsSame(g, tenant, i, k);
      }
    }
  }

  lemma {:induction false} AdmissionsSame(g: Log, tenant: string, i: nat, k: nat)
    requires g.Timed() && Refills(g.limits) && i <= k <= |g.events|
    ensures g.Admissions(tenant, i, k, true) == g.Admissions(tenant, i, k, false)
    decreases k
  {
    if i < k {
      AdmissionsSame(g, tenant, i, k - 1);
      if g.Asks(k - 1, tenant) {
        EvictionInvisible(g, k - 1, tenant);
      }
    }
  }

  /** A rate at least the real one, and, where idle buckets are evicted, one that refills a whole burst in
    a tick: an eviction gives nobody more than this rate would have. */
  predicate Dominates(fast: Limits, l: Limits, evict: bool) {
    && fast.burst == l.burst >= 0.0 && fast.tick == l.tick && 0.0 <= l.rate <= fast.rate
    && (evict ==> Refills(fast))
  }

  predicate Settled(m: Buckets, now: real) {
    forall x :: x in m ==> 0.0 <= m[x].tokens && m[x].lastRefill <= now
  }

  lemma CreditFaster(slow: real, fast: real, from: real, to: real)
    requires slow <= fast && from <= to
    ensures Credit(slow, to) - Credit(slow, from) <= Credit(fast, to) - Credit(fast, from)
  {
    assert (to - from) * (fast - slow) >= 0.0;
  }

  lemma LevelFaster(l: Limits, fast: Limits, m: Buckets, tenant: string, now: real)
    requires Dominates(fast, l, false) && Settled(m, now)
    ensures Level(l, m, tenant, now) <= Level(fast, m, tenant, now)
  {
    if tenant in m {
      RefillIsCredit(l.rate, l.burst, m[tenant], now);
      RefillIsCredit(fast.rate, l.burst, m[tenant], now);
      CreditFaster(l.rate, fast.rate, m[tenant].lastRefill, now);
    }
  }

  /** Between events a level rises by no more than the rate earns. */
  lemma LevelRises(l: Limits, m: Buckets, tenant: string, from: real, to: real)
    requires 0.0 <= l.rate && from <= to
    ensures Level(l, m, tenant, to) <= Level(l, m, tenant, from) + Credit(l.rate, to) - Credit(l.rate, from)
  {
    CreditGrows(l.rate, from, to);
    if tenant in m {
      RefillIsCredit(l.rate, l.burst, m[tenant], from);
      RefillIsCredit(l.rate, l.burst, m[tenant], to);
    }
  }

  lemma RequestSpends(l: Limits, fast: Limits, m: Buckets, asker: string, tenant: string, now: real)
    requires Dominates(fast, l, false) && Settled(m, now)
    ensures var m' := AfterRequest(l, m, asker, now);
            && Settled(m', now)
            && Level(fast, m', tenant, now) + (if asker == tenant && Admits(l, m, tenant, now) then 1.0 else 0.0)
               <= Level(fast, m, tenant, now)
  {
    LevelNonNegative(l, m, asker, now);
    if asker == tenant {
      LevelFaster(l, fast, m, tenant, now);
      var m' := AfterRequest(l, m, asker, now);
      assert m'[tenant].tokens <= l.burst;
      SameInstant(fast, m', tenant, now);
    }
  }

  lemma CleanupSpendsNothing(fast: Limits, m: Buckets, tenant: string, now: real)
    requires Refills(fast) && Settled(m, now)
    ensures var m' := AfterCleanup(fast, m, now);
            Settled(m', now) && Level(fast, m', tenant, now) <= Level(fast, m, tenant, now)
  {
    if tenant in m && Idle(fast, m[tenant], now) {
      FullBucket(fast, m, tenant, now);
    }
  }

  /** The time of event k - 1, or of event k if that is the first. */
  function Since(g: Log, k: nat): real
    requires k <= |g.events|
  {
    if k > 0 then g.events[k - 1].at else if k < |g.events| then g.events[k].at else 0.0
  }

  /** An admission takes a token from the faster bucket, and no event gives it one. */
  lemma EventSpends(g: Log, fast: Limits, tenant: string, k: nat, evict: bool)
    requires k < |g.events| && Dominates(fast, g.limits, evict) && Settled(g.At(k, evict), g.events[k].at)
    ensures Settled(g.At(k + 1, evict), g.events[k].at)
    ensures Level(fast, g.At(k + 1, evict), tenant, g.events[k].at)
            + (if g.Admitted(k, tenant, evict) then 1.0 else 0.0)
            <= Level(fast, g.At(k, evict), tenant, g.events[k].at)
  {
    match g.events[k]
    case Request(asker, at) => RequestSpends(g.limits, fast, g.At(k, evict), asker, tenant, at);
    case Cleanup(at) =>
      if evict {
        CleanupSpendsNothing(fast, g.At(k, evict), tenant, at);
        assert AfterCleanup(fast, g.At(k, evict), at) == AfterCleanup(g.limits, g.At(k, evict), at);
      }
  }

  lemma {:induction false} SettledAlways(g: Log, k: nat, evict: bool)
    requires g.Timed() && 0.0 <= g.limits.rate && 0.0 <= g.limits.burst && k <= |g.events|
    ensures Settled(g.At(k, evict), Since(g, k))
  {
    if k > 0 {
      SettledAlways(g, k - 1, evict);
      match g.events[k - 1]
      case Request(asker, at) => RequestSpends(g.limits, g.limits, g.At(k - 1, evict), asker, asker, at);
      case Cleanup(at) =>
    }
  }

  /** What a window has admitted and what is still in the bucket stay within burst + rate * elapsed. */
  lemma {:induction false} WindowPotential(g: Log, fast: Limits, tenant: string, i: nat, k: nat, evict: bool)
    requires g.Timed() && Dominates(fast, g.limits, evict) && i <= k < |g.events|
    ensures g.Admissions(tenant, i, k + 1, evict) as real + Level(fast, g.At(k + 1, evict), tenant, g.events[k].at)
            <= fast.burst + Credit(fast.rate, g.events[k].at) - Credit(fast.rate, g.events[i].at)
    decreases k
  {
    SettledAlways(g, k, evict);
    EventSpends(g, fast, tenant, k, evict);
    if i < k {
      WindowPotential(g, fast, tenant, i, k - 1, evict);
      LevelRises(fast, g.At(k, evict), tenant, g.events[k - 1].at, g.events[k].at);
    } else {
      assert Level(fast, g.At(k, evict), tenant, g.events[k].at) <= fast.burst;
    }
  }

  lemma DominatedWindow(g: Log, fast: Limits, tenant: string, i: nat, k: nat, evict: bool)
    requires g.Timed() && Dominates(fast, g.limits, evict) && i <= k < |g.events|
    ensures g.Admissions(tenant, i, k + 1, evict) as real
            <= g.limits.burst + Earned(fast.rate, g.events[i].at, g.events[k].at)
  {
    WindowPotential(g, fast, tenant, i, k, evict);
    SettledAlways(g, k + 1, evict);
    LevelNonNegative(fast, g.At(k + 1, evict), tenant, g.events[k].at);
    EarnedIsCredit(fast.rate, g.events[i].at, g.events[k].at);
  }

  /** Any window of length T admits at most burst + rate * T requests of one tenant, with eviction too if
    an idle tick refills a burst. */
  lemma WindowBound(g: Log, tenant: string, i: nat, k: nat, evict: bool)
    requires g.Timed() && 0.0 <= g.limits.rate && 0.0 <= g.limits.burst && (evict ==> Refills(g.limits))
    requires i <= k < |g.events|
    ensures g.Admissions(tenant, i, k + 1, evict) as real
            <= g.limits.burst + Earned(g.limits.rate, g.events[i].at, g.events[k].at)
  {
    DominatedWindow(g, g.limits, tenant, i, k, evict);
  }

  /** If an idle tick does not refill a burst, eviction can hand out a burst per tick and no more: any
    window of length T admits at most burst + burst / tick * T requests of one tenant. */
  lemma EvictedWindowBound(g: Log, tenant: string, i: nat, k: nat)
    requires g.Timed() && 0.0 <= g.limits.rate && 0.0 < g.limits.tick && g.limits.rate * g.limits.tick <= g.limits.burst
    requires i <= k < |g.events|
    ensures g.Admissions(tenant, i, k + 1, true) as real
            <= g.limits.burst + Earned(g.limits.burst / g.limits.tick, g.events[i].at, g.events[k].at)
  {
    var l := g.limits;
    var rate := l.burst / l.tick;
    assert rate * l.tick == l.burst;
    if rate < l.rate {
      assert (l.rate - rate) * l.tick > 0.0;
    }
    assert l.rate * l.tick >= 0.0;
    DominatedWindow(g, l.(rate := rate), tenant, i, k, true);
  }

  /** The tenant's last request before event k is event a, and no cleanup since came more than a tick
    after it. */
  predicate Remembered(g: Log, a: nat, k: nat, tenant: string) {
    && a < k <= |g.events| && g.Asks(a, tenant) && (forall i :: a < i < k ==> !g.Asks(i, tenant))
    && forall c :: a < c < k && g.events[c].Cleanup? ==> g.events[c].at - g.events[a].at <= g.limits.tick
  }

  lemma RememberedOneMore(g: Log, a: nat, k: nat, tenant: string)
    requires k < |g.events|
    ensures Remembered(g, a, k + 1, tenant)
            <==> if g.Asks(k, tenant) then a == k
                 else Remembered(g, a, k, tenant)
                      && (g.events[k].Cleanup? ==> g.events[k].at - g.events[a].at <= g.limits.tick)
  {
    var next := k + 1;
    if Remembered(g, a, next, tenant) && a < k {
      assert forall i :: a < i < k ==> !g.Asks(i, tenant);
    }
  }

  lemma BucketStep(l: Limits, m: Buckets, e: Event, tenant: string)
    ensures var m' := match e
                      case Request(asker, at) => AfterRequest(l, m, asker, at)
                      case Cleanup(at) => AfterCleanup(l, m, at);
            && (tenant in m' <==> if e.Request? && e.tenant == tenant then true
                                  else tenant in m && (e.Cleanup? ==> e.at - m[tenant].lastRefill <= l.tick))
            && (tenant in m' ==> m'[tenant].lastRefill ==
                                 if e.Request? && e.tenant == tenant then e.at else m[tenant].lastRefill)
  {
  }

  /** Which buckets there are: a tenant has one exactly if it has asked and no cleanup since its last
    request came more than a tick after that request, whatever the bucket held. */
  lemma {:induction false} HasBucketIff(g: Log, k: nat, tenant: string)
    requires k <= |g.events|
    ensures tenant in g.At(k, true) <==> exists a: nat :: Remembered(g, a, k, tenant)
    ensures forall a: nat :: Remembered(g, a, k, tenant) ==> g.At(k, true)[tenant].lastRefill == g.events[a].at
  {
    if k > 0 {
      var i := k - 1;
      HasBucketIff(g, i, tenant);
      BucketStep(g.limits, g.At(i, true), g.events[i], tenant);
      forall a: nat
        ensures Remembered(g, a, k, tenant)
                <==> if g.Asks(i, tenant) then a == i
                     else Remembered(g, a, i, tenant)
                          && (g.events[i].Cleanup? ==> g.events[i].at - g.events[a].at <= g.limits.tick)
      {
        RememberedOneMore(g, a, i, tenant);
      }
    }
  }

  /** Without eviction a tenant has a bucket from its first request on. */
  lemma {:induction false} KeepsBucketIff(g: Log, k: nat, tenant: string)
    requires k <= |g.events|
    ensures tenant in g.At(k, false) <==> exists a :: 0 <= a < k && g.Asks(a, tenant)
  {
    if k > 0 {
      var i := k - 1;
      KeepsBucketIff(g, i, tenant);
      BucketStep(g.limits, g.At(i, false), g.events[i], tenant);
      assert tenant in g.At(k, false) <==> tenant in g.At(i, false) || g.Asks(i, tenant);
    }
  }

  predicate Refills(l: Limits) {
    0.0 <= l.rate && 0.0 <= l.burst && 0.0 <= l.tick && l.burst <= l.rate * l.tick
  }

  /** A bucket that has been idle for a cleanup tick is full again. */
  predicate FullBy(l: Limits, b: Bucket, now: real) {
    0.0 <= b.tokens && l.tick <= now - b.lastRefill
  }

  lemma FullBucket(l: Limits, m: Buckets, tenant: string, now: real)
    requires Refills(l) && tenant in m && FullBy(l, m[tenant], now)
    ensures Level(l, m, tenant, now) == l.burst
  {
    RefillIsCredit(l.rate, l.burst, m[tenant], now);
    CreditGrows(l.rate, l.tick, now - m[tenant].lastRefill);
    assert Credit(l.rate, now - m[tenant].lastRefill) == Credit(l.rate, now) - Credit(l.rate, m[tenant].lastRefill);
  }

  /** The evicting limiter against the one that keeps every bucket: the same buckets, except some that
    would be full. */
  predicate SameUpToEviction(l: Limits, kept: Buckets, evicted: Buckets, now: real) {
    && (forall x :: x in evicted ==> x in kept && evicted[x] == kept[x])
    && (forall x :: x in kept && x !in evicted ==> FullBy(l, kept[x], now))
    && forall x :: x in kept ==> 0.0 <= kept[x].tokens && kept[x].lastRefill <= now
  }

  lemma LevelNonNegative(l: Limits, m: Buckets, tenant: string, now: real)
    requires 0.0 <= l.rate && 0.0 <= l.burst
    requires tenant in m ==> 0.0 <= m[tenant].tokens && m[tenant].lastRefill <= now
    ensures 0.0 <= Level(l, m, tenant, now)
  {
    if tenant in m {
      RefillIsCredit(l.rate, l.burst, m[tenant], now);
      CreditGrows(l.rate, m[tenant].lastRefill, now);
    }
  }

  lemma RequestKeepsSame(l: Limits, kept: Buckets, evicted: Buckets, tenant: string, before: real, now: real)
    requires Refills(l) && before <= now && SameUpToEviction(l, kept, evicted, before)
    ensures Level(l, kept, tenant, now) == Level(l, evicted, tenant, now)
    ensures SameUpToEviction(l, AfterRequest(l, kept, tenant, now), AfterRequest(l, evicted, tenant, now), now)
  {
    if tenant in kept && tenant !in evicted {
      FullBucket(l, kept, tenant, now);
    }
    LevelNonNegative(l, kept, tenant, now);
  }

  lemma CleanupKeepsSame(l: Limits, kept: Buckets, evicted: Buckets, before: real, now: real)
    requires before <= now && SameUpToEviction(l, kept, evicted, before)
    ensures SameUpToEviction(l, kept, AfterCleanup(l, evicted, now), now)
  {
  }

  lemma {:induction false} EvictionSimulates(g: Log, k: nat)
    requires g.Timed() && Refills(g.limits) && 0 < k <= |g.events|
    ensures SameUpToEviction(g.limits, g.At(k, false), g.At(k, true), g.events[k - 1].at)
  {
    var e := g.events[k - 1];
    var before := if k == 1 then e.at else g.events[k - 2].at;
    if k > 1 {
      EvictionSimulates(g, k - 1);
    }
    match e
    case Request(tenant, at) => RequestKeepsSame(g.limits, g.At(k - 1, false), g.At(k - 1, true), tenant, before, at);
    case Cleanup(at) => CleanupKeepsSame(g.limits, g.At(k - 1, false), g.At(k - 1, true), before, at);
  }

  /** Cleanup passes anywhere in the history change no decision if an idle tick refills a whole burst. */
  lemma EvictionInvisible(g: Log, k: nat, tenant: string)
    requires g.Timed() && Refills(g.limits) && g.Asks(k, tenant)
    ensures g.Admitted(k, tenant, true) == g.Admitted(k, tenant, false)
  {
    if k > 0 {
      EvictionSimulates(g, k);
      RequestKeepsSame(g.limits, g.At(k, false), g.At(k, true), tenant, g.events[k - 1].at, g.events[k].at);
    }
  }

  /** Bucket size many requests at once, a cleanup just after the tick, and as many requests again. */
  function BurstTwice(l: Limits, n: nat, at: real): (g: Log)
    ensures |g.events| == 2 * n + 1
  {
    Log(l, seq(2 * n + 1, i => if i < n then Request("t", 0.0) else if i == n then Cleanup(at) else Request("t", at)))
  }

  lemma {:induction false} FirstBurst(l: Limits, n: nat, at: real, k: nat, evict: bool)
    requires l.burst == n as real && k <= n
    ensures BurstTwice(l, n, at).At(k, evict) ==
            if k == 0 then map[] else map["t" := Bucket((n - k) as real, 0.0)]
  {
    if k > 0 {
      FirstBurst(l, n, at, k - 1, evict);
    }
  }

  /** No time, no refill. */
  lemma SameInstant(l: Limits, m: Buckets, tenant: string, now: real)
    requires tenant in m && m[tenant].lastRefill == now && m[tenant].tokens <= l.burst
    ensures Level(l, m, tenant, now) == m[tenant].tokens
  {
    RefillIsCredit(l.rate, l.burst, m[tenant], now);
  }

  lemma {:induction false} SecondBurstEvicted(l: Limits, n: nat, at: real, k: nat)
    requires l.burst == n as real && 0 <= k < n && l.tick < at
    ensures BurstTwice(l, n, at).At(n + 1 + k, true)
            == if k == 0 then map[] else map["t" := Bucket((n - k) as real, at)]
  {
    var g := BurstTwice(l, n, at);
    if k == 0 {
      FirstBurst(l, n, at, n, true);
      assert g.events[n] == Cleanup(at);
    } else {
      SecondBurstEvicted(l, n, at, k - 1);
      assert g.events[n + k] == Request("t", at);
      var m := g.At(n + k, true);
      assert g.At(n + 1 + k, true) == AfterRequest(l, m, "t", at);
      if k > 1 {
        SameInstant(l, m, "t", at);
      }
    }
  }

  lemma {:induction false} SecondBurstKept(l: Limits, n: nat, at: real, k: nat)
    requires l.burst == n as real && 0 <= k < n && 0.0 <= at && Credit(l.rate, at) < n as real
    ensures var m := BurstTwice(l, n, at).At(n + 1 + k, false);
            "t" in m && Level(l, m, "t", at) < (n - k) as real
  {
    var g := BurstTwice(l, n, at);
    if k == 0 {
      FirstBurst(l, n, at, n, false);
      assert g.events[n] == Cleanup(at);
      assert g.At(n + 1, false) == g.At(n, false);
    } else {
      SecondBurstKept(l, n, at, k - 1);
      assert g.events[n + k] == Request("t", at);
      var m, m' := g.At(n + k, false), g.At(n + 1 + k, false);
      assert m' == AfterRequest(l, m, "t", at);
      SameInstant(l, m', "t", at);
    }
  }

  /** The moment just after the tick at which an emptied bucket is not yet full. */
  lemma SomeMomentBeforeFull(l: Limits) returns (at: real)
    requires 0.0 <= l.rate && 0.0 <= l.tick && l.rate * l.tick < l.burst
    ensures l.tick < at && Credit(l.rate, at) < l.burst
  {
    if l.rate == 0.0 {
      at := l.tick + 1.0;
    } else {
      var gap := (l.burst - l.rate * l.tick) / (2.0 * l.rate);
      at := l.tick + gap;
      assert gap * l.rate == (l.burst - l.rate * l.tick) / 2.0;
    }
  }

  /** If an idle tick does not refill a whole burst, eviction does change decisions. */
  lemma EvictionVisible(l: Limits, n: nat) returns (g: Log, k: nat)
    requires 0.0 <= l.rate && 0.0 <= l.tick && l.burst == n as real && l.rate * l.tick < l.burst
    ensures g.limits == l && g.Timed() && g.Asks(k, "t")
    ensures g.Admitted(k, "t", true) && !g.Admitted(k, "t", false)
  {
    CreditGrows(l.rate, 0.0, l.tick);
    var at := SomeMomentBeforeFull(l);
    g, k := BurstTwice(l, n, at), 2 * n;
    SecondBurstEvicted(l, n, at, n - 1);
    SecondBurstKept(l, n, at, n - 1);
    if n > 1 {
      SameInstant(l, g.At(k, true), "t", at);
    }
  }

  ghost predicate SameDecisions(g: Log) {
    forall k, tenant :: 0 <= k < |g.events| && g.Asks(k, tenant) ==>
                          g.Admitted(k, tenant, true) == g.Admitted(k, tenant, false)
  }

  /** For a whole-numbered burst, as the configuration has it, eviction is invisible in every history
    exactly when an idle tick refills a whole burst. The code does not check this; its comment claims
    to remove only full buckets. */
  lemma EvictionInvisibleIff(l: Limits, n: nat)
    requires 0.0 <= l.rate && 0.0 <= l.tick && l.burst == n as real
    ensures (forall g: Log :: g.limits == l && g.Timed() ==> SameDecisions(g)) <==> l.burst <= l.rate * l.tick
  {
    if l.burst <= l.rate * l.tick {
      forall g: Log | g.limits == l && g.Timed()
        ensures SameDecisions(g)
      {
        forall k, tenant | 0 <= k < |g.events| && g.Asks(k, tenant)
          ensures g.Admitted(k, tenant, true) == g.Admitted(k, tenant, false)
        {
          EvictionInvisible(g, k, tenant);
        }
      }
    } else {
      var g, k := EvictionVisible(l, n);
      assert !SameDecisions(g);
    }
  }

  /** Creating a full bucket first makes no difference to the request that needed it. */
  lemma NewBucketIsFull(l: Limits, m: Buckets, tenant: string, now: real)
    requires tenant !in m
    ensures Level(l, m[tenant := Bucket(l.burst, now)], tenant, now) == Level(l, m, tenant, now)
  {
    SameInstant(l, m[tenant := Bucket(l.burst, now)], tenant, now);
  }

  class TokenBucket {
    var tokens: real
    var lastRefill: real
    const maxTokens: real
    const refillRate: real

    constructor (tokens: real, maxTokens: real, refillRate: real, lastRefill: real)
      ensures this.tokens == tokens && this.lastRefill == lastRefill
      ensures this.maxTokens == maxTokens && this.refillRate == refillRate
    {
      this.tokens, this.lastRefill := tokens, lastRefill;
      this.maxTokens, this.refillRate := maxTokens, refillRate;
    }

    function Value(): Bucket
      reads this
    {
      Bucket(tokens, lastRefill)
    }

    method Allow(now: real) returns (ok: bool)
      modifies this
      ensures var level := Refilled(refillRate, maxTokens, old(Value()), now);
              ok == (level >= 1.0) && Value() == Bucket(level - (if ok then 1.0 else 0.0), now)
      ensures var earned := old(tokens) + (now - old(lastRefill)) * refillRate;
              var level := if earned > maxTokens then maxTokens else earned;
              ok == (level >= 1.0) && tokens == (if ok then level - 1.0 else level) && lastRefill == now
    {
      ghost var level := Refilled(refillRate, maxTokens, Value(), now);
      var elapsed := now - lastRefill;
      tokens := tokens + elapsed * refillRate;
      if tokens > maxTokens {
        tokens := maxTokens;
      }
      assert tokens == level;
      lastRefill := now;
      if tokens >= 1.0 {
        tokens := tokens - 1.0;
        return true;
      }
      return false;
    }
  }

  class RateLimiter {
    var buckets: map<string, TokenBucket>
    const rate: real
    const burst: real
    const cleanupTick: real

    /** Every tenant has a bucket of its own, with the limiter's settings. */
    ghost predicate Valid()
      reads this, buckets.Values
    {
      && (forall x :: x in buckets ==> buckets[x].maxTokens == burst && buckets[x].refillRate == rate)
      && forall x, y :: x in buckets && y in buckets && buckets[x] == buckets[y] ==> x == y
    }

    function Settings(): Limits {
      Limits(rate, burst, cleanupTick)
    }

    function View(): Buckets
      reads this, buckets.Values
    {
      map x | x in buckets :: buckets[x].Value()
    }

    constructor (rate: real, burst: real, cleanupTick: real)
      ensures Valid() && View() == map[] && Settings() == Limits(rate, burst, cleanupTick)
    {
      this.rate, this.burst, this.cleanupTick := rate, burst, cleanupTick;
      buckets := map[];
    }

    /** A tenant without a bucket gets a full one. */
    method AddBucket(tenant: string, now: real)
      requires Valid() && tenant !in buckets
      modifies this
      ensures Valid() && fresh(buckets.Values - old(buckets.Values)) && tenant in buckets
      ensures View() == old(View())[tenant := Bucket(burst, now)]
    {
      var tb := new TokenBucket(burst, burst, rate, now);
      buckets := buckets[tenant := tb];
    }

    method Spend(tenant: string, now: real) returns (ok: bool)
      requires Valid() && tenant in buckets
      modifies buckets.Values
      ensures Valid()
      ensures ok == Admits(Settings(), old(View()), tenant, now)
      ensures View() == AfterRequest(Settings(), old(View()), tenant, now)
    {
      ok := buckets[tenant].Allow(now);
      assert View()[tenant] == AfterRequest(Settings(), old(View()), tenant, now)[tenant];
    }

    method Allow(tenant: string, now: real) returns (ok: bool)
      requires Valid()
      modifies this, buckets.Values
      ensures Valid() && fresh(buckets.Values - old(buckets.Values))
      ensures ok == Admits(Settings(), old(View()), tenant, now)
      ensures View() == AfterRequest(Settings(), old(View()), tenant, now)
      ensures buckets.Keys == old(buckets).Keys + {tenant}
      ensures forall x :: x in old(buckets) && x != tenant ==> View()[x] == old(View())[x]
    {
      ghost var before := View();
      if tenant !in buckets {
        NewBucketIsFull(Settings(), before, tenant, now);
        AddBucket(tenant, now);
      }
      ok := Spend(tenant, now);
      assert buckets.Keys == View().Keys && old(buckets).Keys == before.Keys;
    }

    /** One pass of the cleanup loop: every idle bucket goes, full or not. */
    method Cleanup(now: real)
      requires Valid()
      modifies this
      ensures Valid() && buckets.Values <= old(buckets.Values)
      ensures View() == AfterCleanup(Settings(), old(View()), now)
      ensures forall x :: x in buckets <==> x in old(buckets) && now - old(buckets[x].lastRefill) <= cleanupTick
      ensures forall x :: x in buckets ==>
                            buckets[x] == old(buckets[x]) && buckets[x].Value() == old(buckets[x].Value())
    {
      var tenants := buckets.Keys;
      while tenants != {}
        invariant Valid() && tenants <= old(buckets).Keys && buckets.Keys <= old(buckets).Keys
        invariant forall x :: x in buckets ==> buckets[x] == old(buckets)[x]
        invariant forall x :: x in old(buckets) ==>
                                (x in buckets <==> x in tenants || !Idle(Settings(), old(buckets)[x].Value(), now))
        decreases |tenants|
      {
        var tenant :| tenant in tenants;
        if tenant in buckets && now - buckets[tenant].lastRefill > cleanupTick {
          buckets := buckets - {tenant};
        }
        tenants := tenants - {tenant};
      }
    }
  }
}
