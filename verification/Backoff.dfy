/** The retry delay of a failed job: exponential, capped, with 25% jitter, in nanoseconds.

  Durations are Go's 64-bit integers. The product base * 2^n is computed in float64 and converted
  back; outside the range where that is exact the converted value is left arbitrary (`raw`). The
  random number generator is the parameter `pick`. */
module Backoff {

  const MAX_INT64: int := 0x7FFF_FFFF_FFFF_FFFF
  const MIN_INT64: int := -0x8000_0000_0000_0000
  const EXACT_FLOAT: int := 0x20_0000_0000_0000
  const NANOS_PER_SECOND: int := 1_000_000_000

  type int64 = x: int | MIN_INT64 <= x <= MAX_INT64

  function Pow2(n: nat): (p: int)
    ensures p >= 1
  {
    if n == 0 then 1 else 2 * Pow2(n - 1)
  }

  /** The integer x is a float64: 53 significant bits, followed by zeros. */
  predicate IsFloat(x: int)
    decreases if x < 0 then -x else x
  {
    -EXACT_FLOAT <= x <= EXACT_FLOAT || (x % 2 == 0 && IsFloat(x / 2))
  }

  /** A significand of at most 53 bits times a power of two. */
  predicate Scaled(x: int, m: int, e: nat) {
    -0x20_0000_0000_0000 <= m <= 0x20_0000_0000_0000 && x == m * Pow2(e)
  }

  lemma {:induction false} ScaledIsFloat(x: int, m: int, e: nat)
    requires Scaled(x, m, e)
    ensures IsFloat(x)
    decreases e
  {
    if e > 0 {
      assert x == 2 * (m * Pow2(e - 1));
      ScaledIsFloat(x / 2, m, e - 1);
    }
  }

  lemma {:induction false} FloatIsScaled(x: int) returns (m: int, e: nat)
    requires IsFloat(x)
    ensures Scaled(x, m, e)
    decreases if x < 0 then -x else x
  {
    if -EXACT_FLOAT <= x <= EXACT_FLOAT {
      m, e := x, 0;
    } else {
      m, e := FloatIsScaled(x / 2);
      assert x == 2 * (m * Pow2(e)) == m * Pow2(e + 1);
      e := e + 1;
    }
  }

  /** The floats among the integers are the numbers with a significand of at most 53 bits. */
  lemma FloatIff(x: int)
    ensures IsFloat(x) <==> exists m: int, e: nat :: Scaled(x, m, e)
  {
    if IsFloat(x) {
      var m, e := FloatIsScaled(x);
    } else if m: int, e: nat :| Scaled(x, m, e) {
      ScaledIsFloat(x, m, e);
    }
  }

  /** The conversion of float64(base) * 2^n to an int64 is exact: 2^n is finite, base is a float64
    integer, and the product fits. */
  predicate Converts(base: int64, n: nat) {
    n < 1024 && IsFloat(base) && MIN_INT64 <= base * Pow2(n) <= MAX_INT64
  }

  function Converted(base: int64, n: nat, raw: int64): int64 {
    if Converts(base, n) then base * Pow2(n) else raw
  }

  lemma PowerOf64()
    ensures Pow2(64) == 0x1_0000_0000_0000_0000
  {
    var p8 := Pow2(8);
    assert p8 == 256;
    Pow2Sum(8, 8);
    Pow2Sum(16, 16);
    Pow2Sum(32, 32);
  }

  lemma {:induction false} Pow2Grows(a: nat, b: nat)
    requires a <= b
    ensures Pow2(a) <= Pow2(b)
    decreases b
  {
    if a < b {
      Pow2Grows(a, b - 1);
    }
  }

  lemma TooLarge(x: int, p: int)
    requires x != 0 && 0x1_0000_0000_0000_0000 <= p
    ensures !(MIN_INT64 <= x * p <= MAX_INT64)
  {
    if x > 0 {
      assert (x - 1) * p >= 0;
    } else {
      assert (-x - 1) * p >= 0;
    }
  }

  /** Zero converts as long as 2^n is finite; any other float converts exactly when the product fits. */
  lemma ConvertsIff(base: int64, n: nat)
    ensures Converts(base, n)
            <==> if base == 0 then n <= 1023 else IsFloat(base) && MIN_INT64 <= base * Pow2(n) <= MAX_INT64
  {
    if base == 0 {
      assert base * Pow2(n) == 0 && IsFloat(base);
    } else if n >= 64 {
      PowerOf64();
      Pow2Grows(64, n);
      TooLarge(base, Pow2(n));
    }
  }

  /** Addition of two int64 values wraps around. */
  function Wrap64(x: int): int64 {
    (x - MIN_INT64) % 0x1_0000_0000_0000_0000 + MIN_INT64
  }

  /** Go's integer division truncates toward zero. */
  function Quarter(d: int): int {
    if d >= 0 then d / 4 else -((-d) / 4)
  }

  /** The capped delay plus or minus up to a quarter of itself. */
  function Jittered(capped: int64, base: int64, pick: nat): int64 {
    var range := Quarter(capped);
    var jittered := if range > 0 then Wrap64(capped + (pick % (2 * range) - range)) else capped;
    if jittered < 0 then base else jittered
  }

  function Capped(n: nat, base: int64, max: int64, raw: int64): int64 {
    var converted := Converted(base, n, raw);
    if converted > max then max else converted
  }

  function CalculateBackoff(n: nat, base: int64, max: int64, raw: int64, pick: nat): int64 {
    Jittered(Capped(n, base, max, raw), base, pick)
  }

  /** The whole seconds of a duration, truncated toward zero. */
  function WholeSeconds(d: int): int {
    if d >= 0 then d / NANOS_PER_SECOND else -((-d) / NANOS_PER_SECOND)
  }

  /** Both divisions drop the fraction: the result is the one for the absolute value, with the sign. */
  lemma Truncation(d: int)
    ensures d >= 0 ==> 4 * Quarter(d) <= d < 4 * Quarter(d) + 4
    ensures d >= 0 ==> 1_000_000_000 * WholeSeconds(d) <= d < 1_000_000_000 * WholeSeconds(d) + 1_000_000_000
    ensures Quarter(-d) == -Quarter(d) && WholeSeconds(-d) == -WholeSeconds(d)
  {
  }

  /** The documented centre of the delay: min(base * 2^n, max). */
  function Centre(n: nat, base: int64, max: int64): int {
    if base * Pow2(n) <= max then base * Pow2(n) else max
  }

  /** The shortest delay the documentation allows, in whole seconds. */
  function LeastSeconds(n: nat, base: int64, max: int64): int
    requires 0 <= base && 0 <= max
  {
    var m := Centre(n, base, max);
    (m - m / 4) / NANOS_PER_SECOND
  }

  /** Nothing overflows on the way to the n-th delay: neither the conversion nor the jitter. */
  predicate Exact(n: nat, base: int64, max: int64) {
    Converts(base, n) && Centre(n, base, max) + Centre(n, base, max) / 4 <= MAX_INT64
  }

  predicate InWindow(d: int, m: int) {
    m - m / 4 <= d <= m + m / 4
  }

  lemma JitterRange(range: int, pick: nat)
    requires range > 0
    ensures -range <= pick % (2 * range) - range < range
  {
  }

  lemma WrapInRange(x: int)
    requires MIN_INT64 <= x <= MAX_INT64
    ensures Wrap64(x) == x
  {
  }

  lemma WrapAround(x: int)
    requires MAX_INT64 < x <= 2 * MAX_INT64
    ensures Wrap64(x) < 0
  {
  }

  /** The delay before it is checked for wrapping around. */
  function Unwrapped(capped: int64, pick: nat): (d: int)
    requires 0 <= capped
    ensures capped - capped / 4 <= d <= capped + capped / 4
    ensures capped / 4 > 0 ==> d <= capped + capped / 4 - 1
  {
    var range := capped / 4;
    if range > 0 then JitterRange(range, pick); capped + (pick % (2 * range) - range) else capped
  }

  /** The jittered delay, or the base when it wraps around. */
  lemma JitteredIs(capped: int64, base: int64, pick: nat)
    requires 0 <= capped
    ensures Jittered(capped, base, pick)
            == if Unwrapped(capped, pick) <= MAX_INT64 then Unwrapped(capped, pick) else base
  {
    var d := Unwrapped(capped, pick);
    if d <= MAX_INT64 {
      WrapInRange(d);
    } else {
      WrapAround(d);
    }
  }

  /** Whatever the conversion produced, the delay stays within the cap plus a quarter. */
  lemma BackoffBounded(n: nat, base: int64, max: int64, raw: int64, pick: nat)
    requires 0 <= base <= max
    ensures 0 <= CalculateBackoff(n, base, max, raw, pick) <= max + max / 4
  {
    var capped := Capped(n, base, max, raw);
    if 0 <= capped {
      JitteredIs(capped, base, pick);
    }
  }

  /** A conversion that overflows to a negative value gives the base delay, whatever the cap. */
  lemma NegativeGivesBase(n: nat, base: int64, max: int64, raw: int64, pick: nat)
    requires !Converts(base, n) && raw < 0
    ensures CalculateBackoff(n, base, max, raw, pick) == base
  {
    assert Capped(n, base, max, raw) < 0;
    assert Quarter(Capped(n, base, max, raw)) <= 0;
  }

  lemma JitteredInWindow(capped: int64, base: int64, pick: nat)
    requires 0 <= capped && capped + capped / 4 <= MAX_INT64
    ensures InWindow(Jittered(capped, base, pick), capped)
  {
    JitteredIs(capped, base, pick);
  }

  /** The delay lies in the documented window when the conversion is exact and the jittered value
    cannot wrap around. */
  lemma BackoffInWindow(n: nat, base: int64, max: int64, raw: int64, pick: nat)
    requires 0 <= base && 0 <= max && Exact(n, base, max)
    ensures InWindow(CalculateBackoff(n, base, max, raw, pick), Centre(n, base, max))
    ensures LeastSeconds(n, base, max) <= WholeSeconds(CalculateBackoff(n, base, max, raw, pick))
  {
    assert base * Pow2(n) >= 0;
    JitteredInWindow(Centre(n, base, max), base, pick);
  }

  lemma SmallRemainder(x: int, m: int)
    requires 0 <= x < m
    ensures x % m == x
  {
  }

  /** The delays around a centre that some random number gives. */
  predicate Reachable(m: int, d: int) {
    if m / 4 == 0 then d == m else m - m / 4 <= d < m + m / 4
  }

  lemma JitteredReachable(m: int64, base: int64, pick: nat)
    requires 0 <= m && m + m / 4 <= MAX_INT64
    ensures Reachable(m, Jittered(m, base, pick))
  {
    JitteredIs(m, base, pick);
  }

  lemma PickFor(m: int64, base: int64, d: int) returns (pick: nat)
    requires 0 <= m && m + m / 4 <= MAX_INT64 && Reachable(m, d)
    ensures Jittered(m, base, pick) == d
  {
    pick := d - m + m / 4;
    if m / 4 > 0 {
      SmallRemainder(pick, 2 * (m / 4));
    }
    JitteredIs(m, base, pick);
  }

  lemma JitterAroundCentre(n: nat, base: int64, max: int64, raw: int64, pick: nat)
    requires 0 <= base && 0 <= max && Converts(base, n)
    ensures 0 <= Centre(n, base, max) <= MAX_INT64
    ensures CalculateBackoff(n, base, max, raw, pick) == Jittered(Centre(n, base, max), base, pick)
  {
    assert base * Pow2(n) >= 0;
  }

  /** The jitter is really there: the delays that can come out are exactly those within a quarter of the
    centre (the upper end excluded), or the centre alone when a quarter of it is nothing. */
  lemma PossibleDelays(n: nat, base: int64, max: int64, raw: int64, d: int)
    requires 0 <= base && 0 <= max && Exact(n, base, max)
    ensures (exists pick: nat :: CalculateBackoff(n, base, max, raw, pick) == d)
            <==> Reachable(Centre(n, base, max), d)
  {
    var m := Centre(n, base, max);
    JitterAroundCentre(n, base, max, raw, 0);
    if pick: nat :| CalculateBackoff(n, base, max, raw, pick) == d {
      JitterAroundCentre(n, base, max, raw, pick);
      JitteredReachable(m, base, pick);
    }
    if Reachable(m, d) {
      var pick := PickFor(m, base, d);
      JitterAroundCentre(n, base, max, raw, pick);
    }
  }

  /** An inexact conversion can leave the documented window, at either end. */
  lemma OverflowLeavesWindow(n: nat, base: int64, max: int64) returns (raw: int64)
    requires 0 <= base <= max && 0 < max && !Converts(base, n)
    ensures !InWindow(CalculateBackoff(n, base, max, raw, 0), Centre(n, base, max))
  {
    raw := if base == 0 then max else 0;
    if base == 0 {
      JitteredIs(max, base, 0);
      assert base * Pow2(n) == 0;
    } else {
      assert Jittered(0, base, 0) == 0;
      assert base * Pow2(n) >= 1;
    }
  }

  /** The jittered value stays in the window for every random number exactly if the largest one does not
    wrap around, or the base, which stands in for a value that does, lies in the window itself. */
  lemma JitterStaysIff(m: int64, base: int64)
    requires 0 <= base <= m
    ensures (forall pick: nat :: InWindow(Jittered(m, base, pick), m))
            <==> m + m / 4 - 1 <= MAX_INT64 || m - m / 4 <= base
  {
    if m + m / 4 - 1 <= MAX_INT64 || m - m / 4 <= base {
      forall pick: nat
        ensures InWindow(Jittered(m, base, pick), m)
      {
        JitteredIs(m, base, pick);
      }
    } else {
      var pick := 2 * (m / 4) - 1;
      SmallRemainder(pick, 2 * (m / 4));
      JitteredIs(m, base, pick);
      assert !InWindow(Jittered(m, base, pick), m);
    }
  }

  lemma CentreAboveBase(n: nat, base: int64, max: int64)
    requires 0 <= base <= max
    ensures base <= Centre(n, base, max) <= MAX_INT64
  {
    assert base * (Pow2(n) - 1) >= 0;
  }

  /** Every conversion result and every random number gives a delay within a quarter of m. */
  ghost predicate WindowKept(n: nat, base: int64, max: int64, m: int) {
    forall raw: int64, pick: nat :: InWindow(CalculateBackoff(n, base, max, raw, pick), m)
  }

  lemma ConvertedWindow(n: nat, base: int64, max: int64, m: int64)
    requires 0 <= base <= m && 0 <= max && Converts(base, n) && m == Centre(n, base, max)
    ensures WindowKept(n, base, max, m) <==> m + m / 4 - 1 <= MAX_INT64 || m - m / 4 <= base
  {
    JitterStaysIff(m, base);
    if WindowKept(n, base, max, m) {
      forall pick: nat
        ensures InWindow(Jittered(m, base, pick), m)
      {
        JitterAroundCentre(n, base, max, 0, pick);
        assert InWindow(CalculateBackoff(n, base, max, 0, pick), m);
      }
    } else {
      var raw: int64, pick: nat :| !InWindow(CalculateBackoff(n, base, max, raw, pick), m);
      JitterAroundCentre(n, base, max, raw, pick);
    }
  }

  /** The documented window is met for every conversion result and every random number exactly when
    the conversion is exact and the jitter cannot wrap around to a base below the window (or the cap is
    zero, which forces every delay to zero). */
  lemma DocumentedWindowIff(n: nat, base: int64, max: int64)
    requires 0 <= base <= max
    ensures var m := Centre(n, base, max);
            WindowKept(n, base, max, m)
            <==> max == 0 || (Converts(base, n) && (m + m / 4 - 1 <= MAX_INT64 || m - m / 4 <= base))
  {
    var m := Centre(n, base, max);
    CentreAboveBase(n, base, max);
    if max == 0 {
      forall raw: int64, pick: nat
        ensures InWindow(CalculateBackoff(n, base, max, raw, pick), m)
      {
        BackoffBounded(n, base, max, raw, pick);
      }
    } else if Converts(base, n) {
      ConvertedWindow(n, base, max, m);
    } else {
      var raw := OverflowLeavesWindow(n, base, max);
    }
  }

  /** Doubling: once an exponent is convertible, so is every smaller one. */
  lemma {:induction false} ConvertsDownward(base: int64, lo: nat, hi: nat)
    requires lo <= hi && Converts(base, hi)
    ensures Converts(base, lo)
    decreases hi - lo
  {
    if lo < hi {
      assert Pow2(hi) == 2 * Pow2(hi - 1);
      assert base * Pow2(hi) == 2 * (base * Pow2(hi - 1));
      ConvertsDownward(base, lo, hi - 1);
    }
  }

  /** The configured base of two seconds first overflows the conversion at exponent 33. */
  lemma DefaultBaseOverflow(n: nat)
    ensures Converts(2 * NANOS_PER_SECOND, n) <==> n <= 32
  {
    var p8 := Pow2(8);
    assert p8 == 256;
    Pow2Sum(8, 8);
    Pow2Sum(16, 16);
    assert Pow2(33) == 2 * Pow2(32);
    if n <= 32 {
      ConvertsDownward(2 * NANOS_PER_SECOND, n, 32);
    } else if Converts(2 * NANOS_PER_SECOND, n) {
      ConvertsDownward(2 * NANOS_PER_SECOND, 33, n);
    }
  }

  lemma {:induction false} Pow2Sum(a: nat, b: nat)
    ensures Pow2(a + b) == Pow2(a) * Pow2(b)
  {
    if b > 0 {
      Pow2Sum(a, b - 1);
      assert Pow2(a + b) == 2 * Pow2(a + (b - 1));
    }
  }
}
