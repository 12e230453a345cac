/**
 The leaky-bucket limiter: its steps on the map of buckets, which are leaked only
 when their IP calls, and the level they stand for, which falls all the time.
 */
module LeakyBucket {
  import opened Common
  import opened Traffic

  datatype Config = Config(rate: real, capacity: real, maxIPs: int) {
    predicate Valid() {
      rate > 0.0 && capacity >= 1.0 && maxIPs > 0
    }
  }

  datatype Bucket = Bucket(water: real, lastLeak: Time)

  type Store = map<string, Bucket>

  function Max(x: real, y: real): real {
    if x >= y then x else y
  }

  /** Conversion to an integer, toward zero. */
  function Truncate(x: real): int {
    if x >= 0.0 then x.Floor else -(-x).Floor
  }

  /** What is left at time `to` of the water there was at time `from`. */
  function Drain(rate: real, water: real, from: Time, to: Time): real {
    Max(0.0, water - (to - from) * rate)
  }

  /** The water left in a bucket at time `now`; an IP without a bucket gets an empty one. */
  function Leaked(c: Config, m: Store, ip: string, now: Time): real {
    if ip in m then Drain(c.rate, m[ip].water, m[ip].lastLeak, now) else 0.0
  }

  /** The verdict for a caller whose bucket, once leaked, holds `water`. */
  function Decide(c: Config, water: real, now: Time): Verdict
    requires c.Valid()
  {
    if water >= c.capacity then
      Verdict(false, 0, now + water / c.rate, (water - c.capacity + 1.0) / c.rate)
    else
      Verdict(true, Truncate(c.capacity - (water + 1.0)), now + (water + 1.0) / c.rate, 0.0)
  }

  function LastLeak(b: Bucket): Time {
    b.lastLeak
  }

  /** The new map after a call whose leaked water is `water`. */
  ghost predicate StoreStep(c: Config, m: Store, ip: string, now: Time, water: real, allowed: bool,
                            m': Store, victim: Option<string>)
  {
    if !allowed then
      m' == m[ip := Bucket(water, now)] && victim == None
    else
      var m1 := m[ip := Bucket(water + 1.0, now)];
      if c.maxIPs > 0 && |m1| > c.maxIPs then EvictStep(m1, LastLeak, m', victim)
      else m' == m1 && victim == None
  }

  ghost predicate AllowStep(c: Config, m: Store, ip: string, now: Time, m': Store,
                            v: Verdict, victim: Option<string>)
    requires c.Valid()
  {
    var water := Leaked(c, m, ip, now);
    v == Decide(c, water, now) && StoreStep(c, m, ip, now, water, v.allowed, m', victim)
  }

  const IDLE := 600.0

  predicate Idle(b: Bucket, now: Time) {
    b.water <= 0.0 && now - b.lastLeak > IDLE
  }

  function Swept(m: Store, now: Time): Store {
    map k | k in m && !Idle(m[k], now) :: m[k]
  }

  ghost predicate Step(c: Config, m: Store, e: Event, m': Store) {
    match e
    case Call(ip, now, v, victim) => c.Valid() && AllowStep(c, m, ip, now, m', v, victim)
    case Cleanup(now) => m' == Swept(m, now)
  }

  ghost function Steps(c: Config): StepRelation<Store> {
    (m, e, m') => Step(c, m, e, m')
  }

  ghost predicate IsRun(c: Config, es: seq<Event>, ms: seq<Store>) {
    IsRunOf(map[], Steps(c), es, ms)
  }

  // ---------------------------------------------------------------------------
  // The level: one unit per admission, falling at a constant rate, never below zero
  // ---------------------------------------------------------------------------

  function Level(rate: real, h: seq<Time>, t: Time): real {
    if h == [] then 0.0
    else
      var n := |h| - 1;
      Drain(rate, Level(rate, h[..n], h[n]) + 1.0, h[n], t)
  }

  function LevelPolicy(c: Config): Policy
    requires c.Valid()
  {
    (h, now) => Decide(c, Level(c.rate, h, now), now)
  }

  lemma {:induction false} ProductNonNegative(x: real, y: real)
    requires x >= 0.0 && y >= 0.0
    ensures x * y >= 0.0
  {
  }

  /** Leaking over two consecutive spans is leaking once over their sum. */
  lemma {:induction false} DrainTwice(rate: real, water: real, r: Time, s: Time, t: Time)
    requires rate > 0.0 && s <= t
    ensures Drain(rate, Drain(rate, water, r, s), s, t) == Drain(rate, water, r, t)
  {
    var p, q := (s - r) * rate, (t - s) * rate;
    ProductNonNegative(t - s, rate);
    assert Drain(rate, Drain(rate, water, r, s), s, t) == Max(0.0, Max(0.0, water - p) - q);
    assert Drain(rate, water, r, t) == Max(0.0, water - (p + q)) by {
      assert (t - r) * rate == p + q;
    }
  }

  lemma {:induction false} DrainMonotone(rate: real, water: real, water': real, s: Time, t: Time)
    requires water <= water'
    ensures Drain(rate, water, s, t) <= Drain(rate, water', s, t)
  {
  }

  lemma {:induction false} LevelLeaks(rate: real, h: seq<Time>, s: Time, t: Time)
    requires rate > 0.0 && s <= t
    ensures Level(rate, h, t) == Drain(rate, Level(rate, h, s), s, t)
  {
    if h == [] {
    } else {
      var n := |h| - 1;
      DrainTwice(rate, Level(rate, h[..n], h[n]) + 1.0, h[n], s, t);
    }
  }

  lemma {:induction false} LevelAppend(rate: real, h: seq<Time>, now: Time)
    ensures Level(rate, h + [now], now) == Level(rate, h, now) + 1.0
  {
    assert (h + [now])[..|h|] == h;
    assert (now - now) * rate == 0.0;
    assert Drain(rate, Level(rate, h, now) + 1.0, now, now) == Level(rate, h, now) + 1.0;
  }

  /** What `n` admissions since `from` would leave at `t` if the bucket could hold a debt. */
  function Load(rate: real, n: int, from: Time, t: Time): real {
    n as real - (t - from) * rate
  }

  lemma {:induction false} LoadLater(rate: real, n: int, from: Time, s: Time, t: Time)
    ensures Load(rate, n + 1, from, t) == Load(rate, n, from, s) + 1.0 - (t - s) * rate
  {
    assert (n + 1) as real == n as real + 1.0;
    assert (t - from) * rate == (s - from) * rate + (t - s) * rate;
  }

  /** The level bounds the load of every suffix of the history. */
  lemma {:induction false} LevelAboveLoads(rate: real, h: seq<Time>, i: nat, t: Time)
    requires rate > 0.0 && i < |h|
    ensures Load(rate, |h| - i, h[i], t) <= Level(rate, h, t)
    decreases |h|
  {
    var n := |h| - 1;
    if i < n {
      LevelAboveLoads(rate, h[..n], i, h[n]);
      LoadLater(rate, n - i, h[i], h[n], t);
    } else {
      assert Load(rate, 1, h[n], t) == 1.0 - (t - h[n]) * rate;
    }
  }

  /** A level above zero is the load of some suffix: together with the bound, the largest load. */
  lemma {:induction false} LevelIsSomeLoad(rate: real, h: seq<Time>, t: Time) returns (i: nat)
    requires rate > 0.0 && Level(rate, h, t) > 0.0
    ensures i < |h| && Level(rate, h, t) == Load(rate, |h| - i, h[i], t)
    decreases |h|
  {
    var n := |h| - 1;
    if Level(rate, h[..n], h[n]) > 0.0 {
      i := LevelIsSomeLoad(rate, h[..n], h[n]);
      LoadLater(rate, n - i, h[i], h[n], t);
    } else {
      i := n;
      assert Load(rate, 1, h[n], t) == 1.0 - (t - h[n]) * rate;
    }
  }

  /** Closed form: the level is the largest load of any suffix of the history, or zero. */
  lemma {:induction false} LevelClosedForm(rate: real, h: seq<Time>, t: Time, x: real)
    requires rate > 0.0
    ensures x == Level(rate, h, t) <==>
            && x >= 0.0
            && (forall i :: 0 <= i < |h| ==> Load(rate, |h| - i, h[i], t) <= x)
            && (x == 0.0 || exists i :: 0 <= i < |h| && x == Load(rate, |h| - i, h[i], t))
  {
    forall i | 0 <= i < |h| ensures Load(rate, |h| - i, h[i], t) <= Level(rate, h, t) {
      LevelAboveLoads(rate, h, i, t);
    }
    if Level(rate, h, t) > 0.0 {
      var i := LevelIsSomeLoad(rate, h, t);
    }
  }

  // ---------------------------------------------------------------------------
  // The lazily leaked buckets stand for the level
  // ---------------------------------------------------------------------------

  ghost predicate Invariant(c: Config, m: Store, ip: string, h: seq<Time>, clock: Time) {
    if ip in m then
      && m[ip].lastLeak <= clock
      && m[ip].water == Level(c.rate, h, m[ip].lastLeak)
      && 1.0 <= m[ip].water < c.capacity + 1.0
    else
      h == []
  }

  lemma {:induction false} LeakedIsLevel(c: Config, m: Store, ip: string, h: seq<Time>, clock: Time, now: Time)
    requires c.Valid() && Invariant(c, m, ip, h, clock) && clock <= now
    ensures Leaked(c, m, ip, now) == Level(c.rate, h, now) < c.capacity + 1.0
  {
    if ip in m {
      LevelLeaks(c.rate, h, m[ip].lastLeak, now);
    }
  }

  lemma {:induction false} OwnCallKeeps(c: Config, m: Store, e: Event, m': Store, h: seq<Time>, clock: Time)
    requires e.Call? && Step(c, m, e, m')
    requires Invariant(c, m, e.ip, h, clock) && clock <= e.now
    ensures Invariant(c, m', e.ip, HistoryAfter(e, e.ip, h), e.now)
  {
    LeakedIsLevel(c, m, e.ip, h, clock, e.now);
    LevelAppend(c.rate, h, e.now);
  }

  lemma {:induction false} StepKeeps(c: Config, m: Store, e: Event, m': Store, ip: string, h: seq<Time>, clock: Time)
    requires c.Valid() && Step(c, m, e, m')
    requires Invariant(c, m, ip, h, clock) && clock <= e.now
    ensures Invariant(c, m', ip, HistoryAfter(e, ip, h), e.now)
  {
    match e {
      case Call(_, _, _, _) =>
        if e.ip == ip {
          OwnCallKeeps(c, m, e, m', h, clock);
        }
      case Cleanup(_) =>
    }
  }

  /** After every run each stored water is its level, at least 1 and below capacity + 1. */
  lemma {:induction false} RunInvariant(c: Config, es: seq<Event>, ms: seq<Store>, ip: string, clock: Time)
    requires c.Valid() && IsRun(c, es, ms)
    requires es != [] ==> es[|es| - 1].now <= clock
    ensures Invariant(c, ms[|es|], ip, LiveHistory(es, ip), clock)
  {
    if es != [] {
      var n := |es| - 1;
      RunPrefix(map[], Steps(c), es, ms, n);
      assert StepAt(Steps(c), es, ms, n);
      RunInvariant(c, es[..n], ms[..n + 1], ip, es[n].now);
      StepKeeps(c, ms[n], es[n], ms[n + 1], ip, LiveHistory(es[..n], ip), es[n].now);
    }
  }

  lemma {:induction false} CallRefines(c: Config, es: seq<Event>, ms: seq<Store>, i: nat)
    requires c.Valid() && IsRun(c, es, ms)
    requires i < |es| && es[i].Call?
    ensures es[i].verdict == Decide(c, Level(c.rate, LiveHistory(es[..i], es[i].ip), es[i].now), es[i].now)
  {
    var ip, now := es[i].ip, es[i].now;
    assert StepAt(Steps(c), es, ms, i);
    RunPrefix(map[], Steps(c), es, ms, i);
    RunInvariant(c, es[..i], ms[..i + 1], ip, now);
    LeakedIsLevel(c, ms[i], ip, LiveHistory(es[..i], ip), now, now);
  }

  /** The lazily leaked, evicted and swept map decides by the level of the caller's own admissions. */
  lemma {:induction false} RefinesLevel(c: Config, es: seq<Event>, ms: seq<Store>)
    requires c.Valid() && IsRun(c, es, ms)
    ensures Monotone(es) && Follows(LevelPolicy(c), es)
  {
    RunMonotone(map[], Steps(c), es, ms);
    forall i | 0 <= i < |es| && es[i].Call?
      ensures es[i].verdict == LevelPolicy(c)(LiveHistory(es[..i], es[i].ip), es[i].now)
    {
      CallRefines(c, es, ms, i);
    }
  }
}
