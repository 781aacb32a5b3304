/** The idempotency key of a scheduled run: schedule id and slot, printed into one string. */
module RequestIds {

  function Digit(d: nat): char
    requires d < 10
  {
    "0123456789"[d]
  }

  function Digits(n: nat): (s: string)
    ensures s != [] && '-' !in s && ':' !in s
  {
    if n < 10 then [Digit(n)] else Digits(n / 10) + [Digit(n % 10)]
  }

  function Decimal(n: int): (s: string)
    ensures ':' !in s
  {
    if n >= 0 then Digits(n) else "-" + Digits(-n)
  }

  /** The number that a string of decimal digits denotes. */
  function Value(s: string): int {
    if s == [] then 0 else 10 * Value(s[..|s| - 1]) + (s[|s| - 1] as int - '0' as int)
  }

  /** Decimal prints in base ten, with a minus sign for negative numbers. */
  lemma {:induction false} DigitsDenote(n: nat)
    ensures Value(Digits(n)) == n
  {
    assert forall d: nat :: d < 10 ==> Digit(d) as int - '0' as int == d;
    if n >= 10 {
      DigitsDenote(n / 10);
      assert Digits(n)[..|Digits(n)| - 1] == Digits(n / 10);
    } else {
      assert Digits(n)[..0] == [];
    }
  }

  lemma DecimalDenotes(n: int)
    ensures n >= 0 ==> Value(Decimal(n)) == n
    ensures n < 0 ==> Decimal(n)[0] == '-' && Value(Decimal(n)[1..]) == -n
  {
    if n >= 0 {
      DigitsDenote(n);
    } else {
      DigitsDenote(-n);
      assert Decimal(n)[1..] == Digits(-n);
    }
  }

  function RequestId(schedule: string, unix: int): string {
    "schedule:" + schedule + ":" + Decimal(unix)
  }

  lemma {:induction false} DigitsInjective(a: nat, b: nat)
    requires Digits(a) == Digits(b)
    ensures a == b
  {
    var s, t := Digits(a), Digits(b);
    assert s[|s| - 1] == Digit(a % 10) && t[|t| - 1] == Digit(b % 10);
    assert s[..|s| - 1] == (if a < 10 then [] else Digits(a / 10));
    assert t[..|t| - 1] == (if b < 10 then [] else Digits(b / 10));
    if a >= 10 && b >= 10 {
      DigitsInjective(a / 10, b / 10);
    }
  }

  lemma DecimalInjective(a: int, b: int)
    requires Decimal(a) == Decimal(b)
    ensures a == b
  {
    assert ('-' in Decimal(a) <==> a < 0) && ('-' in Decimal(b) <==> b < 0);
    if a >= 0 {
      DigitsInjective(a, b);
    } else {
      assert ("-" + Digits(-a))[1..] == Digits(-a) && ("-" + Digits(-b))[1..] == Digits(-b);
      DigitsInjective(-a, -b);
    }
  }

  /** The last colon splits the key, so whatever the schedule ids look like, two keys agree only for
    the same schedule and the same second. */
  lemma RequestIdInjective(s: string, t: string, a: int, b: int)
    requires RequestId(s, a) == RequestId(t, b)
    ensures s == t && a == b
  {
    var x, y := Decimal(a), Decimal(b);
    var k := RequestId(s, a);
    assert k == ("schedule:" + s) + (":" + x) && k == ("schedule:" + t) + (":" + y);
    assert k[|k| - |x| - 1] == ':' && k[|k| - |y| - 1] == ':';
    assert forall i :: 0 <= i < |x| ==> k[|k| - |x| + i] == x[i];
    assert forall i :: 0 <= i < |y| ==> k[|k| - |y| + i] == y[i];
    assert |x| == |y|;
    assert x == k[|k| - |x|..] && y == k[|k| - |y|..];
    DecimalInjective(a, b);
    var head := k[..|k| - |x| - 1];
    assert head == "schedule:" + s && head == "schedule:" + t;
    assert s == head[9..] && t == head[9..];
  }
}
