/** Rate settings such as "100/min": how they are read, and the limiters made from them. */
module RateSettings {
  import opened Common
  import opened Timeline
  import opened Traffic
  import opened RateLimiters
  import opened LeakyBucketLimiters
  import Sliding = SlidingWindow
  import Leaky = LeakyBucket
  import SlidingGuarantees
  import LeakyGuarantees

  const DEFAULT_LIMIT := 100

  /** The number of digits a string starts with. */
  function DigitRun(s: string): (k: nat)
    ensures k <= |s| && (k < |s| ==> !IsDigit(s[k]))
    ensures forall i :: 0 <= i < k ==> IsDigit(s[i])
  {
    if s == "" || !IsDigit(s[0]) then 0 else 1 + DigitRun(s[1..])
  }

  /** The leading number of a string, or the default where that is zero or missing. */
  function Leading(s: string): (n: int)
    ensures n >= 1
  {
    var n := Value(s[..DigitRun(s)]);
    if n == 0 then DEFAULT_LIMIT else n
  }

  method Atoi(s: string) returns (n: int)
    ensures n == Leading(s)
  {
    n := 0;
    var i := 0;
    while i < |s|
      invariant 0 <= i <= DigitRun(s)
      invariant n == Value(s[..i])
    {
      if IsDigit(s[i]) {
        assert s[..i + 1][..i] == s[..i];
        n := n * 10 + DigitValue(s[i]);
        i := i + 1;
      } else {
        break;
      }
    }
    if n == 0 {
      n := 100;
    }
  }

  /** The index of the first slash, or the length if there is none. */
  function Slash(s: string): (k: nat)
    ensures k <= |s| && (k < |s| ==> s[k] == '/') && '/' !in s[..k]
  {
    if s == "" || s[0] == '/' then 0
    else
      var k := 1 + Slash(s[1..]);
      assert s[..k] == [s[0]] + s[1..][..k - 1];
      k
  }

  predicate PerSecond(unit: string) {
    unit == "sec" || unit == "s"
  }

  method ParseRateLimit(s: string) returns (limit: int, window: real)
    ensures (limit, window) == RateLimit(s)
    ensures Sliding.Config(limit, window, 0).Valid()
  {
    var k := Slash(s);
    if k == |s| {
      return 100, 60.0;
    }
    var unit := s[k + 1..];
    limit := Atoi(s[..k]);
    match unit {
      case "min" => window := 60.0;
      case "sec" => window := 1.0;
      case "s" => window := 1.0;
      case _ => window := 60.0;
    }
  }

  /** Requests per window, as the sliding window reads a setting. */
  function RateLimit(s: string): (int, real) {
    var k := Slash(s);
    if k == |s| then (DEFAULT_LIMIT, 60.0)
    else (Leading(s[..k]), if PerSecond(s[k + 1..]) then 1.0 else 60.0)
  }

  /** Leak rate and capacity, as the leaky bucket reads it. */
  function LeakyRate(s: string): (real, int) {
    var k := Slash(s);
    if k == |s| then (1.67, 50)
    else
      var n := Leading(s[..k]);
      if PerSecond(s[k + 1..]) then (n as real, n)
      else (n as real / 60.0, if n == 1 then 1 else n / 2)
  }

  method ParseLeakyRate(s: string) returns (ratePerSec: real, capacity: int)
    ensures (ratePerSec, capacity) == LeakyRate(s)
    ensures Leaky.Config(ratePerSec, capacity as real, 1).Valid()
  {
    var k := Slash(s);
    if k == |s| {
      return 1.67, 50;
    }
    var unit := s[k + 1..];
    var n := Atoi(s[..k]);
    if n == 0 { // never: Atoi has a default of its own
      n := 100;
    }
    match unit {
      case "min" =>
        ratePerSec := n as real / 60.0;
        capacity := n / 2;
      case "sec" =>
        ratePerSec := n as real;
        capacity := n;
      case "s" =>
        ratePerSec := n as real;
        capacity := n;
      case _ =>
        ratePerSec := n as real / 60.0;
        capacity := n / 2;
    }
    if capacity < 1 {
      capacity := 1;
    }
  }

  /** The default limiter of the router: a leaky bucket if asked for, else a sliding window. */
  method DefaultLimiter(algo: string, setting: string, maxIPs: int)
    returns (sliding: RateLimiter?, leaky: LeakyBucketLimiter?)
    ensures algo == "leaky" ==>
              && sliding == null && leaky != null && fresh(leaky) && leaky.Valid() && leaky.trace == []
              && leaky.Settings() == Leaky.Config(LeakyRate(setting).0, LeakyRate(setting).1 as real, MaxIPs(maxIPs))
    ensures algo != "leaky" ==>
              && leaky == null && sliding != null && fresh(sliding) && sliding.Valid() && sliding.trace == []
              && sliding.Settings() == Sliding.Config(RateLimit(setting).0, RateLimit(setting).1, MaxIPs(maxIPs))
  {
    var max := maxIPs;
    if max <= 0 {
      max := 100000;
    }
    sliding, leaky := null, null;
    if algo == "leaky" {
      var rate, capacity := ParseLeakyRate(setting);
      leaky := new LeakyBucketLimiter(rate, capacity, max);
    } else {
      var limit, window := ParseRateLimit(setting);
      sliding := new RateLimiter(limit, window, max);
    }
  }

  function MaxIPs(configured: int): (max: int)
    ensures if configured > 0 then max == configured else max == 100000
  {
    if configured <= 0 then 100000 else configured
  }

  // ---------------------------------------------------------------------------
  // Settings mean what they say
  // ---------------------------------------------------------------------------

  lemma {:induction false} DigitRunOf(digits: string, rest: string)
    requires AllDigits(digits) && (rest != "" ==> !IsDigit(rest[0]))
    ensures DigitRun(digits + rest) == |digits|
  {
    var s := digits + rest;
    var k := DigitRun(s);
    assert forall i :: 0 <= i < |digits| ==> s[i] == digits[i];
    assert rest != "" ==> s[|digits|] == rest[0];
  }

  /** Reading a positive number gives that number, whatever follows its digits. */
  lemma {:induction false} LeadingOfDigits(n: nat, rest: string)
    requires n >= 1 && (rest != "" ==> !IsDigit(rest[0]))
    ensures Leading(Digits(n) + rest) == n
  {
    ValueOfDigits(n);
    DigitRunOf(Digits(n), rest);
    assert (Digits(n) + rest)[..|Digits(n)|] == Digits(n);
  }

  /** "n/unit" asks for n requests a second or, whatever other unit is named, a minute. */
  lemma {:induction false} SettingMeans(n: nat, unit: string)
    requires n >= 1
    ensures var s := Digits(n) + "/" + unit;
            && RateLimit(s) == (n, if unit == "sec" || unit == "s" then 1.0 else 60.0)
            && LeakyRate(s).0 * RateLimit(s).1 == n as real
            && if unit == "sec" || unit == "s" || n == 1 then LeakyRate(s).1 == n else n - 1 <= 2 * LeakyRate(s).1 <= n
  {
    var s := Digits(n) + "/" + unit;
    ValueOfDigits(n);
    LeadingOfDigits(n, "");
    assert Digits(n) + "" == Digits(n);
    var k := Slash(s);
    assert k == |Digits(n)| by {
      assert s[|Digits(n)|] == '/';
      assert forall i :: 0 <= i < |Digits(n)| ==> s[i] == Digits(n)[i];
      assert '/' in s[|Digits(n)|..];
    }
    assert s[..k] == Digits(n) && s[k + 1..] == unit;
  }

  /** Reading only digits, leading zeros do not matter. */
  lemma {:induction false} LeadingZeros(digits: string)
    requires AllDigits(digits)
    ensures AllDigits("0" + digits) && Value("0" + digits) == Value(digits)
  {
    var all := "0" + digits;
    if digits == "" {
      assert all[..0] == "";
    } else {
      assert all[..|all| - 1] == "0" + digits[..|digits| - 1];
      LeadingZeros(digits[..|digits| - 1]);
    }
  }

  lemma {:induction false} ValueZeroIff(digits: string)
    requires AllDigits(digits)
    ensures Value(digits) == 0 <==> forall i :: 0 <= i < |digits| ==> digits[i] == '0'
  {
    if digits != "" {
      ValueZeroIff(digits[..|digits| - 1]);
    }
  }

  /** Without a slash a setting is ignored, and without a digit other than zero at its start its number is. */
  lemma {:induction false} Fallbacks(s: string, digits: string, rest: string)
    requires AllDigits(digits) && (rest != "" ==> !IsDigit(rest[0]))
    ensures '/' !in s ==> RateLimit(s) == (100, 60.0) && LeakyRate(s) == (1.67, 50)
    ensures (forall i :: 0 <= i < |digits| ==> digits[i] == '0') ==> Leading(digits + rest) == 100
    ensures !(forall i :: 0 <= i < |digits| ==> digits[i] == '0') ==> Leading(digits + rest) == Value(digits)
  {
    var k := Slash(s);
    if k < |s| {
      assert s[k] == '/';
    }
    DigitRunOf(digits, rest);
    assert (digits + rest)[..|digits|] == digits;
    ValueZeroIff(digits);
  }

  /** Both algorithms read the same long-run rate from a setting exactly when it has a slash. */
  lemma {:induction false} SameRateIff(s: string)
    ensures LeakyRate(s).0 * RateLimit(s).1 == RateLimit(s).0 as real <==> '/' in s
  {
    var k := Slash(s);
    if k < |s| {
      assert s[k] == '/';
    } else {
      assert s[..k] == s;
    }
  }

  /** With "n/unit" no closed window of the unit holds more than n admissions of an IP that stays. */
  lemma {:induction false} ConfiguredLimit(n: nat, unit: string, maxIPs: int, es: seq<Event>,
                                           ms: seq<Sliding.Store>, ip: string, t: Time)
    requires n >= 1 && NeverEvicted(es, ip)
    requires var (limit, window) := RateLimit(Digits(n) + "/" + unit);
             Sliding.IsRun(Sliding.Config(limit, window, MaxIPs(maxIPs)), es, ms)
    ensures |InSpan(Admissions(es, ip), t, t + if PerSecond(unit) then 1.0 else 60.0)| <= n
  {
    SettingMeans(n, unit);
    var c := Sliding.Config(n, if PerSecond(unit) then 1.0 else 60.0, MaxIPs(maxIPs));
    assert es[0..|es|] == es;
    SlidingGuarantees.WindowBound(c, es, ms, 0, |es|, ip, t);
  }

  /**
   Of the same IP the leaky bucket lets one unit's worth pass in any unit of time,
   plus a burst of half of that a minute, or of all of it a second, plus one.
   */
  lemma {:induction false} ConfiguredBurst(n: nat, unit: string, maxIPs: int, es: seq<Event>, ms: seq<Leaky.Store>,
                                           ip: string, t: Time)
    requires n >= 1 && NeverEvicted(es, ip)
    requires var (rate, capacity) := LeakyRate(Digits(n) + "/" + unit);
             Leaky.IsRun(Leaky.Config(rate, capacity as real, MaxIPs(maxIPs)), es, ms)
    ensures |InSpan(Admissions(es, ip), t, t + if PerSecond(unit) then 1.0 else 60.0)|
         <= n + if PerSecond(unit) || n == 1 then n else n / 2
  {
    SettingMeans(n, unit);
    var s := Digits(n) + "/" + unit;
    var c := Leaky.Config(LeakyRate(s).0, LeakyRate(s).1 as real, MaxIPs(maxIPs));
    assert es[0..|es|] == es;
    LeakyGuarantees.TrafficBound(c, es, ms, 0, |es|, ip, t, t + RateLimit(s).1);
  }
}
