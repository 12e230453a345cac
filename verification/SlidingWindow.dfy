/**
 The sliding-window limiter: its steps on the map of timestamp lists, the naive
 limiter it stands for, and what holds over every run.
 */
module SlidingWindow {
  import opened Common
  import opened Timeline
  import opened Traffic

  datatype Config = Config(limit: int, window: real, maxIPs: int) {
    predicate Valid() {
      limit >= 1 && window >= 0.0
    }
  }

  /** IP to the timestamps of its admitted requests, oldest first. */
  type Store = map<string, seq<Time>>

  function Stored(m: Store, ip: string): seq<Time> {
    if ip in m then m[ip] else []
  }

  function Front(l: seq<Time>): Time {
    if l == [] then 0.0 else l[0]
  }

  function Populated(m: Store): Store {
    map k | k in m && m[k] != [] :: m[k]
  }

  /** The verdict for a caller whose admissions in the last window are `recent`. */
  function Decide(c: Config, recent: seq<Time>, now: Time): Verdict {
    if |recent| >= c.limit then Verdict(false, 0, now + c.window, c.window - (now - Front(recent)))
    else Verdict(true, c.limit - |recent| - 1, now + c.window, 0.0)
  }

  ghost predicate AllowStep(c: Config, m: Store, ip: string, now: Time, m': Store,
                            v: Verdict, victim: Option<string>)
  {
    var l := Expire(Stored(m, ip), now - c.window);
    && v == Decide(c, l, now)
    && if !v.allowed then
         m' == m[ip := l] && victim == None
       else
         var m1 := m[ip := l + [now]];
         if c.maxIPs > 0 && |m1| > c.maxIPs then EvictStep(Populated(m1), Front, m', victim)
         else m' == m1 && victim == None
  }

  predicate Stale(c: Config, l: seq<Time>, now: Time) {
    l == [] || l[0] < now - 2.0 * c.window
  }

  function Swept(c: Config, m: Store, now: Time): Store {
    map k | k in m && !Stale(c, m[k], now) :: m[k]
  }

  ghost predicate Step(c: Config, m: Store, e: Event, m': Store)
  {
    match e
    case Call(ip, now, v, victim) => AllowStep(c, m, ip, now, m', v, victim)
    case Cleanup(now) => m' == Swept(c, m, now)
  }

  ghost function Steps(c: Config): StepRelation<Store> {
    (m, e, m') => Step(c, m, e, m')
  }

  ghost predicate IsRun(c: Config, es: seq<Event>, ms: seq<Store>) {
    IsRunOf(map[], Steps(c), es, ms)
  }

  // ---------------------------------------------------------------------------
  // The naive limiter: keep every admission, count those in the last window
  // ---------------------------------------------------------------------------

  function Naive(c: Config, h: seq<Time>, now: Time): Verdict {
    Decide(c, InSpan(h, now - c.window, now), now)
  }

  lemma {:induction false} NaiveAnswers(c: Config, h: seq<Time>, now: Time)
    ensures var v := Naive(c, h, now);
            && (v.allowed <==> |InSpan(h, now - c.window, now)| < c.limit)
            && v.reset == now + c.window && (if v.allowed then v.retryAfter == 0.0 else v.remaining == 0)
  {
  }

  function NaivePolicy(c: Config): Policy {
    (h, now) => Naive(c, h, now)
  }

  /** What every reachable map says about one IP. */
  ghost predicate Invariant(c: Config, m: Store, ip: string, h: seq<Time>, clock: Time) {
    && Tracks(Stored(m, ip), h, clock - c.window)
    && (ip in m ==> m[ip] != [] && m[ip][|m[ip]| - 1] - m[ip][0] <= c.window)
  }

  /** The list left after pruning, with the window bounds that make it short-lived. */
  lemma {:induction false} PrunedList(c: Config, l: seq<Time>, h: seq<Time>, clock: Time, now: Time)
    requires Sorted(h) && Until(h, now) && Tracks(l, h, clock - c.window) && clock <= now
    ensures var r := Expire(l, now - c.window);
            && r == InSpan(h, now - c.window, now)
            && Tracks(r, h, now - c.window)
            && Tracks(r + [now], h + [now], now - c.window)
            && (r != [] ==> now - c.window <= r[0] && r[|r| - 1] <= now)
  {
    var r := Expire(l, now - c.window);
    ExpireIsInSpan(l, h, clock - c.window, now - c.window, now);
    InSpanBounds(h, now - c.window, now);
    TracksAppend(r, h, now, now - c.window);
  }

  /** A call's verdict and the caller's new list, in terms of its pruned list `r`. */
  lemma {:induction false} CallOutcome(c: Config, m: Store, e: Event, m': Store, r: seq<Time>)
    requires c.Valid() && e.Call? && Step(c, m, e, m')
    requires r == Expire(Stored(m, e.ip), e.now - c.window)
    ensures e.verdict == Decide(c, r, e.now)
    ensures Evicts(e, e.ip) ==> e.ip !in m'
    ensures !Evicts(e, e.ip) ==> e.ip in m' && m'[e.ip] == if e.verdict.allowed then r + [e.now] else r
  {
  }

  lemma {:induction false} OwnCallKeeps(c: Config, m: Store, e: Event, m': Store, h: seq<Time>, clock: Time)
    requires c.Valid() && e.Call? && Step(c, m, e, m')
    requires Invariant(c, m, e.ip, h, clock)
    requires Sorted(h) && clock <= e.now && Until(h, e.now)
    ensures Invariant(c, m', e.ip, HistoryAfter(e, e.ip, h), e.now)
  {
    var r := Expire(Stored(m, e.ip), e.now - c.window);
    CallOutcome(c, m, e, m', r);
    OwnListKeeps(c, Stored(m, e.ip), h, clock, e.now);
    if !Evicts(e, e.ip) && !e.verdict.allowed {
      assert r != [];
    }
  }

  lemma {:induction false} OwnListKeeps(c: Config, l: seq<Time>, h: seq<Time>, clock: Time, now: Time)
    requires c.Valid() && Sorted(h) && Until(h, now) && Tracks(l, h, clock - c.window) && clock <= now
    ensures var r := Expire(l, now - c.window);
            && Tracks(r, h, now - c.window) && Tracks(r + [now], h + [now], now - c.window)
            && (r != [] ==> r[|r| - 1] - r[0] <= c.window)
            && (r + [now])[|r|] - (r + [now])[0] <= c.window
  {
    PrunedList(c, l, h, clock, now);
  }

  lemma {:induction false} OtherCallKeeps(c: Config, m: Store, e: Event, m': Store, ip: string, h: seq<Time>,
                                          clock: Time)
    requires c.Valid() && e.Call? && e.ip != ip && Step(c, m, e, m')
    requires Invariant(c, m, ip, h, clock) && clock <= e.now
    ensures Invariant(c, m', ip, HistoryAfter(e, ip, h), e.now)
  {
    OtherOutcome(c, m, e, m', ip);
    TracksTransitive(Stored(m, ip), Stored(m, ip), h, clock - c.window, e.now - c.window);
  }

  lemma {:induction false} OtherOutcome(c: Config, m: Store, e: Event, m': Store, ip: string)
    requires c.Valid() && e.Call? && e.ip != ip && Step(c, m, e, m')
    requires ip in m ==> m[ip] != []
    ensures Evicts(e, ip) ==> ip !in m'
    ensures !Evicts(e, ip) ==> (ip in m' <==> ip in m) && Stored(m', ip) == Stored(m, ip)
  {
    var m1 := m[e.ip := Expire(Stored(m, e.ip), e.now - c.window) + [e.now]];
    assert ip in m ==> m1[ip] == m[ip] && ip in Populated(m1);
  }

  /** A swept list is wholly expired, because a list never spans more than one window. */
  lemma {:induction false} SweepKeeps(c: Config, m: Store, now: Time, ip: string, h: seq<Time>, clock: Time)
    requires c.Valid() && Invariant(c, m, ip, h, clock)
    requires Sorted(h) && Until(h, clock) && clock <= now
    ensures Invariant(c, Swept(c, m, now), ip, h, now)
  {
    var l, l' := Stored(m, ip), Stored(Swept(c, m, now), ip);
    if ip in m && Stale(c, l, now) {
      TracksPart(l, h, clock - c.window, clock);
      AllExpired(l, now - c.window);
    }
    TracksTransitive(l', l, h, clock - c.window, now - c.window);
  }

  lemma {:induction false} InvariantLater(c: Config, m: Store, ip: string, h: seq<Time>, clock: Time, clock': Time)
    requires Invariant(c, m, ip, h, clock) && clock <= clock'
    ensures Invariant(c, m, ip, h, clock')
  {
    TracksTransitive(Stored(m, ip), Stored(m, ip), h, clock - c.window, clock' - c.window);
  }

  lemma {:induction false} StepKeeps(c: Config, m: Store, e: Event, m': Store, ip: string, h: seq<Time>, clock: Time)
    requires c.Valid() && Step(c, m, e, m')
    requires Invariant(c, m, ip, h, clock)
    requires Sorted(h) && Until(h, clock) && clock <= e.now
    ensures Invariant(c, m', ip, HistoryAfter(e, ip, h), e.now)
  {
    match e {
      case Call(_, _, _, _) =>
        if e.ip == ip {
          OwnCallKeeps(c, m, e, m', h, clock);
        } else {
          OtherCallKeeps(c, m, e, m', ip, h, clock);
        }
      case Cleanup(_) => SweepKeeps(c, m, e.now, ip, h, clock);
    }
  }

  /** The invariant holds after every run, at any time from its last event on. */
  lemma {:induction false} RunInvariant(c: Config, es: seq<Event>, ms: seq<Store>, ip: string, clock: Time)
    requires c.Valid() && IsRun(c, es, ms)
    requires es != [] ==> es[|es| - 1].now <= clock
    ensures Invariant(c, ms[|es|], ip, LiveHistory(es, ip), clock)
    ensures Sorted(LiveHistory(es, ip)) && Until(LiveHistory(es, ip), clock)
  {
    assert Sorted(LiveHistory(es, ip)) && Until(LiveHistory(es, ip), clock) by {
      RunMonotone(map[], Steps(c), es, ms);
      LiveHistorySorted(es, ip);
    }
    if es != [] {
      var n := |es| - 1;
      RunPrefix(map[], Steps(c), es, ms, n);
      assert StepAt(Steps(c), es, ms, n);
      RunInvariant(c, es[..n], ms[..n + 1], ip, es[n].now);
      StepKeeps(c, ms[n], es[n], ms[n + 1], ip, LiveHistory(es[..n], ip), es[n].now);
      InvariantLater(c, ms[n + 1], ip, LiveHistory(es, ip), es[n].now, clock);
    }
  }

  /** Pruning the stored list at any later time gives the IP's admissions in that time's window. */
  lemma {:induction false} RunPruned(c: Config, es: seq<Event>, ms: seq<Store>, ip: string, now: Time)
    requires c.Valid() && IsRun(c, es, ms)
    requires es != [] ==> es[|es| - 1].now <= now
    ensures Expire(Stored(ms[|es|], ip), now - c.window) == InSpan(LiveHistory(es, ip), now - c.window, now)
  {
    RunInvariant(c, es, ms, ip, now);
    PrunedList(c, Stored(ms[|es|], ip), LiveHistory(es, ip), now, now);
  }

  lemma {:induction false} CallRefines(c: Config, es: seq<Event>, ms: seq<Store>, i: nat)
    requires c.Valid() && IsRun(c, es, ms)
    requires i < |es| && es[i].Call?
    ensures es[i].verdict == Naive(c, LiveHistory(es[..i], es[i].ip), es[i].now)
  {
    var ip, now := es[i].ip, es[i].now;
    var r := Expire(Stored(ms[i], ip), now - c.window);
    assert StepAt(Steps(c), es, ms, i);
    assert r == InSpan(LiveHistory(es[..i], ip), now - c.window, now) by {
      RunPrefix(map[], Steps(c), es, ms, i);
      RunPruned(c, es[..i], ms[..i + 1], ip, now);
    }
    CallOutcome(c, ms[i], es[i], ms[i + 1], r);
  }

  /**
   The pruned, evicted and swept map decides as the naive limiter that keeps all
   admissions since the caller's last eviction.
   */
  lemma {:induction false} RefinesNaive(c: Config, es: seq<Event>, ms: seq<Store>)
    requires c.Valid() && IsRun(c, es, ms)
    ensures Monotone(es) && Follows(NaivePolicy(c), es)
  {
    RunMonotone(map[], Steps(c), es, ms);
    forall i | 0 <= i < |es| && es[i].Call?
      ensures es[i].verdict == NaivePolicy(c)(LiveHistory(es[..i], es[i].ip), es[i].now)
    {
      CallRefines(c, es, ms, i);
    }
  }
}
