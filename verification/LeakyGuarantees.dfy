/** What the leaky-bucket limiter guarantees over every run. */
module LeakyGuarantees {
  import opened Common
  import opened Timeline
  import opened Traffic
  import opened Crowds
  import opened LeakyBucket
  import opened LeakyRuns

  // ---------------------------------------------------------------------------
  // The traffic bound
  // ---------------------------------------------------------------------------

  /** The allowance for a span of time: the burst plus what leaks in the span. */
  function Allowance(c: Config, span: real): real {
    c.capacity + 1.0 + span * c.rate
  }

  lemma {:induction false} AllowanceMonotone(c: Config, span: real, span': real)
    requires c.Valid() && span <= span'
    ensures Allowance(c, span) <= Allowance(c, span')
    ensures span >= 0.0 ==> Allowance(c, span) > 1.0
  {
    ProductNonNegative(span' - span, c.rate);
    assert span' * c.rate == span * c.rate + (span' - span) * c.rate;
    if span >= 0.0 {
      ProductNonNegative(span, c.rate);
    }
  }

  /** `n` admissions from `first` to `last` stay below the allowance for the time they took. */
  ghost predicate SmoothBetween(c: Config, n: int, first: Time, last: Time) {
    n as real < Allowance(c, last - first)
  }

  ghost predicate Smooth(c: Config, h: seq<Time>) {
    forall i, j :: 0 <= i <= j < |h| ==> SmoothBetween(c, j - i + 1, h[i], h[j])
  }

  lemma {:induction false} LoadWithinAllowance(c: Config, n: int, first: Time, last: Time)
    requires Load(c.rate, n, first, last) < c.capacity
    ensures SmoothBetween(c, n + 1, first, last)
  {
    var leaked := (last - first) * c.rate;
    assert (n + 1) as real == n as real + 1.0;
    assert Load(c.rate, n, first, last) == n as real - leaked;
    assert Allowance(c, last - first) == c.capacity + 1.0 + leaked;
  }

  lemma {:induction false} NewestSmooth(c: Config, h: seq<Time>, now: Time, i: nat)
    requires c.Valid() && Level(c.rate, h, now) < c.capacity && i <= |h|
    ensures SmoothBetween(c, |h| - i + 1, (h + [now])[i], now)
  {
    if i < |h| {
      LevelAboveLoads(c.rate, h, i, now);
      LoadWithinAllowance(c, |h| - i, h[i], now);
    } else {
      AllowanceMonotone(c, 0.0, 0.0);
      assert now - now == 0.0;
    }
  }

  lemma {:induction false} AdmissionKeepsSmooth(c: Config, h: seq<Time>, now: Time)
    requires c.Valid() && Smooth(c, h) && Level(c.rate, h, now) < c.capacity
    ensures Smooth(c, h + [now])
  {
    var h' := h + [now];
    forall i, j | 0 <= i <= j < |h'| ensures SmoothBetween(c, j - i + 1, h'[i], h'[j]) {
      if j < |h| {
        assert h'[i] == h[i] && h'[j] == h[j];
      } else {
        NewestSmooth(c, h, now, i);
      }
    }
  }

  lemma {:induction false} HistorySmooth(c: Config, es: seq<Event>, ip: string)
    requires c.Valid() && Follows(LevelPolicy(c), es)
    ensures Smooth(c, LiveHistory(es, ip))
  {
    if es != [] {
      var n := |es| - 1;
      FollowsPrefix(LevelPolicy(c), es, n);
      HistorySmooth(c, es[..n], ip);
      if Admits(es[n], ip) {
        AdmissionKeepsSmooth(c, LiveHistory(es[..n], ip), es[n].now);
      }
    }
  }

  /**
   As long as an IP is not evicted, any span of time holds fewer of its admissions
   than the capacity, plus one, plus what leaks in that span.
   */
  lemma {:induction false} TrafficBound(c: Config, es: seq<Event>, ms: seq<Store>, a: nat, b: nat, ip: string,
                                        lo: Time, hi: Time)
    requires c.Valid() && IsRun(c, es, ms) && lo <= hi
    requires a <= b <= |es| && NeverEvicted(es[a..b], ip)
    ensures |InSpan(Admissions(es[a..b], ip), lo, hi)| as real < Allowance(c, hi - lo)
  {
    RefinesLevel(c, es, ms);
    FollowsPrefix(LevelPolicy(c), es, b);
    assert es[..b] == es[..a] + es[a..b];
    SpanBound(c, es[..a], es[a..b], ip, lo, hi);
  }

  lemma {:induction false} SpanBound(c: Config, es1: seq<Event>, es2: seq<Event>, ip: string, lo: Time, hi: Time)
    requires c.Valid() && Follows(LevelPolicy(c), es1 + es2) && lo <= hi
    requires NeverEvicted(es2, ip)
    ensures |InSpan(Admissions(es2, ip), lo, hi)| as real < Allowance(c, hi - lo)
  {
    var h := LiveHistory(es1 + es2, ip);
    HistorySmooth(c, es1 + es2, ip);
    LiveHistoryConcat(es1, es2, ip);
    InSpanConcat(LiveHistory(es1, ip), Admissions(es2, ip), lo, hi);
    SmoothSpan(c, h, lo, hi);
  }

  lemma {:induction false} SmoothSpan(c: Config, h: seq<Time>, lo: Time, hi: Time)
    requires c.Valid() && Smooth(c, h) && lo <= hi
    ensures |InSpan(h, lo, hi)| as real < Allowance(c, hi - lo)
  {
    if InSpan(h, lo, hi) == [] {
      AllowanceMonotone(c, hi - lo, hi - lo);
    } else {
      var i, j := InSpanEnds(h, lo, hi);
      assert SmoothBetween(c, j - i + 1, h[i], h[j]);
      AllowanceMonotone(c, h[j] - h[i], hi - lo);
    }
  }

  ghost predicate SpanHolds(c: Config, es: seq<Event>, ip: string, lo: Time, hi: Time) {
    lo <= hi ==> |InSpan(Admissions(es, ip), lo, hi)| as real < Allowance(c, hi - lo)
  }

  ghost predicate SpansHold(c: Config, es: seq<Event>) {
    forall ip: string, lo: Time, hi: Time :: SpanHolds(c, es, ip, lo, hi)
  }

  lemma {:induction false} RoomySpans(c: Config, es: seq<Event>, ms: seq<Store>)
    requires c.Valid() && IsRun(c, es, ms) && |Callers(es)| <= c.maxIPs
    ensures SpansHold(c, es)
  {
    forall ip: string, lo: Time, hi: Time ensures SpanHolds(c, es, ip, lo, hi) {
      forall i | 0 <= i < |es| ensures !Evicts(es[i], ip) {
        if es[i].Call? {
          RoomyVictim(c, es, ms, i);
        }
      }
      assert es[0..|es|] == es;
      if lo <= hi {
        TrafficBound(c, es, ms, 0, |es|, ip, lo, hi);
      }
    }
  }

  /** With more callers than room, one of them can be admitted any number of times at one instant. */
  lemma {:induction false} EvictionForgets(c: Config, callers: set<string>)
    requires c.Valid() && |callers| > c.maxIPs
    ensures exists es: seq<Event>, ms: seq<Store> :: IsRun(c, es, ms) && Callers(es) <= callers && !SpansHold(c, es)
  {
    var es, ms, ip := CrowdedRun(c, 0.0, callers, c.capacity.Floor + 2);
    assert Allowance(c, 0.0 - 0.0) == c.capacity + 1.0;
    assert !SpanHolds(c, es, ip, 0.0, 0.0);
  }

  /** The traffic bound holds in every run of the given callers exactly when they all have room. */
  lemma {:induction false} TrafficBoundIff(c: Config, callers: set<string>)
    requires c.Valid()
    ensures (forall es: seq<Event>, ms: seq<Store> :: IsRun(c, es, ms) && Callers(es) <= callers ==> SpansHold(c, es))
            <==> |callers| <= c.maxIPs
  {
    if |callers| <= c.maxIPs {
      forall es: seq<Event>, ms: seq<Store> | IsRun(c, es, ms) && Callers(es) <= callers ensures SpansHold(c, es) {
        SubsetSize(Callers(es), callers);
        RoomySpans(c, es, ms);
      }
    } else {
      EvictionForgets(c, callers);
    }
  }

  // ---------------------------------------------------------------------------
  // Remaining
  // ---------------------------------------------------------------------------

  lemma {:induction false} BurstCount(c: Config, h: seq<Time>, now: Time, k: nat)
    requires c.Valid()
    ensures BurstAdmitted(LevelPolicy(c), h, now, k)
            <==> k == 0 || Level(c.rate, h, now) + (k - 1) as real < c.capacity
    decreases k
  {
    if k > 0 {
      LevelAppend(c.rate, h, now);
      BurstCount(c, h + [now], now, k - 1);
    }
  }

  /** The history after a call that gets verdict `v`. */
  function HistoryWith(h: seq<Time>, now: Time, v: Verdict): seq<Time> {
    if v.allowed then h + [now] else h
  }

  /**
   Admitted or not, `remaining` is never negative and never promises too much: that
   many further calls are admitted at once. One more is admitted exactly when the room
   left is positive and not a whole number, and two more never are: it is the room left,
   rounded down, or 0 if there is none.
   */
  lemma {:induction false} RemainingAlmostExact(c: Config, h: seq<Time>, now: Time)
    requires c.Valid()
    ensures var v := LevelPolicy(c)(h, now);
            var r, h' := v.remaining, HistoryWith(h, now, v);
            && 0 <= r
            && BurstAdmitted(LevelPolicy(c), h', now, r)
            && (BurstAdmitted(LevelPolicy(c), h', now, r + 1) <==> c.capacity - Level(c.rate, h', now) > r as real)
            && !BurstAdmitted(LevelPolicy(c), h', now, r + 2)
            && c.capacity - Level(c.rate, h', now) < r as real + 1.0
            && (r > 0 ==> r as real <= c.capacity - Level(c.rate, h', now))
  {
    var v := LevelPolicy(c)(h, now);
    var r, h' := v.remaining, HistoryWith(h, now, v);
    LevelAppend(c.rate, h, now);
    if v.allowed {
      var room := c.capacity - (Level(c.rate, h, now) + 1.0);
      assert room > -1.0;
      assert r == Truncate(room);
    }
    BurstCount(c, h', now, r);
    BurstCount(c, h', now, r + 1);
    BurstCount(c, h', now, r + 2);
  }

  // ---------------------------------------------------------------------------
  // Retry-after
  // ---------------------------------------------------------------------------

  /** More admissions never lower the level. */
  lemma {:induction false} LevelMonotone(rate: real, h: seq<Time>, more: seq<Time>, t: Time)
    requires rate > 0.0 && Sorted(h + more) && Until(h + more, t)
    ensures Level(rate, h, t) <= Level(rate, h + more, t)
    decreases |more|
  {
    if more == [] {
      assert h + more == h;
    } else {
      var n := |more| - 1;
      SortedWithoutLast(h, more, t);
      LevelMonotone(rate, h, more[..n], more[n]);
      LevelLeaks(rate, h, more[n], t);
      assert (h + more)[|h| + n] == more[n];
      DrainMonotone(rate, Level(rate, h, more[n]), Level(rate, h + more[..n], more[n]) + 1.0, more[n], t);
    }
  }

  lemma {:induction false} SortedWithoutLast(h: seq<Time>, more: seq<Time>, t: Time)
    requires more != [] && Sorted(h + more) && Until(h + more, t)
    ensures var n := |more| - 1;
            && (h + more)[..|h| + n] == h + more[..n]
            && Sorted(h + more[..n]) && Until(h + more[..n], more[n]) && more[n] <= t
  {
    var n := |more| - 1;
    var h1, h2 := h + more, h + more[..n];
    assert h1[|h| + n] == more[n];
    assert forall i :: 0 <= i < |h2| ==> h2[i] == h1[i];
  }

  /** The level at a denial is below capacity once `retryAfter`, less the time one unit takes, has passed. */
  lemma {:induction false} LevelAfterDenial(c: Config, h: seq<Time>, now: Time, t: Time)
    requires c.Valid() && now <= t
    requires Level(c.rate, h, now) >= c.capacity
    ensures var r := Decide(c, Level(c.rate, h, now), now).retryAfter;
            && r >= 1.0 / c.rate
            && (Level(c.rate, h, t) < c.capacity <==> t - now > r - 1.0 / c.rate)
            && (t == now + r ==> Level(c.rate, h, t) == c.capacity - 1.0)
  {
    assert Level(c.rate, h, t) == Drain(c.rate, Level(c.rate, h, now), now, t) by {
      LevelLeaks(c.rate, h, now, t);
    }
    WaitAfterDenial(Level(c.rate, h, now), c.capacity, c.rate, t - now);
  }

  lemma {:induction false} WaitAfterDenial(level: real, capacity: real, rate: real, wait: real)
    requires rate > 0.0 && level >= capacity >= 1.0 && wait >= 0.0
    ensures var r := (level - capacity + 1.0) / rate;
            && r >= 1.0 / rate
            && (level - wait * rate < capacity <==> wait > r - 1.0 / rate)
            && (wait == r ==> level - wait * rate == capacity - 1.0)
  {
    var over := level - capacity;
    QuotientOrder(wait, over, rate);
    QuotientOrder(0.0, over, rate);
  }

  lemma {:induction false} QuotientOrder(d: real, a: real, rate: real)
    requires rate > 0.0
    ensures d > a / rate <==> d * rate > a
    ensures d < a / rate <==> d * rate < a
  {
    var q := a / rate;
    assert q * rate == a;
    assert (d - q) * rate == d * rate - a;
    if d > q {
    } else if d < q {
      assert (q - d) * rate == a - d * rate;
    }
  }

  /** Water `w` lasts for `w / rate`. */
  lemma {:induction false} DrainedWhen(rate: real, w: real, now: Time, t: Time)
    requires rate > 0.0
    ensures Drain(rate, w, now, t) == 0.0 <==> t >= now + w / rate
  {
    QuotientOrder(t - now, w, rate);
  }

  /** With no further admission the bucket is empty exactly from the reset time on. */
  lemma {:induction false} ResetExact(c: Config, h: seq<Time>, now: Time, t: Time)
    requires c.Valid() && now <= t
    ensures var v := LevelPolicy(c)(h, now);
            Level(c.rate, HistoryWith(h, now, v), t) == 0.0 <==> t >= v.reset
  {
    var w := Level(c.rate, h, now);
    if w >= c.capacity {
      LevelLeaks(c.rate, h, now, t);
      DrainedWhen(c.rate, w, now, t);
    } else {
      LevelAppend(c.rate, h, now);
      LevelLeaks(c.rate, h + [now], now, t);
      DrainedWhen(c.rate, w + 1.0, now, t);
    }
  }

  /** No admission is too many: those since it, drained from then on, stay below the capacity. */
  ghost predicate LoadsBelow(c: Config, h: seq<Time>, now: Time) {
    forall i :: 0 <= i < |h| ==> Load(c.rate, |h| - i, h[i], now) < c.capacity
  }

  lemma {:induction false} LevelBelowIff(c: Config, h: seq<Time>, now: Time)
    requires c.Valid()
    ensures Level(c.rate, h, now) < c.capacity <==> LoadsBelow(c, h, now)
  {
    LevelClosedForm(c.rate, h, now, Level(c.rate, h, now));
  }

  /**
   Every call of every run is answered by its IP's admissions since its last eviction:
   it is admitted exactly when, for each of them, those since it less what has leaked
   from then on stay below the capacity; the bucket is empty exactly from the reset
   time on, if nothing more is admitted; and an admitted caller need not wait.
   */
  lemma {:induction false} AnswersExact(c: Config, es: seq<Event>, ms: seq<Store>, i: nat, t: Time)
    requires c.Valid() && IsRun(c, es, ms) && i < |es| && es[i].Call?
    ensures var h, now, v := LiveHistory(es[..i], es[i].ip), es[i].now, es[i].verdict;
            && (v.allowed <==> LoadsBelow(c, h, now))
            && (now <= t ==> (Level(c.rate, HistoryWith(h, now, v), t) == 0.0 <==> t >= v.reset))
            && (v.allowed ==> v.retryAfter == 0.0)
  {
    RefinesLevel(c, es, ms);
    var h, now := LiveHistory(es[..i], es[i].ip), es[i].now;
    LevelBelowIff(c, h, now);
    if now <= t {
      ResetExact(c, h, now, t);
    }
    assert es[i].verdict == LevelPolicy(c)(h, now);
  }

  /**
   After a denial, a call of that IP up to `retryAfter` less the time one unit takes
   to leak is denied; with nothing admitted in between, every later one is admitted,
   and one made exactly at `retryAfter` finds one whole unit of room.
   */
  lemma {:induction false} RetrySufficient(c: Config, es: seq<Event>, ms: seq<Store>, i: nat, j: nat)
    requires c.Valid() && IsRun(c, es, ms)
    requires i < j < |es| && es[i].Call? && es[j].Call? && es[i].ip == es[j].ip
    requires !es[i].verdict.allowed && NeverEvicted(es[i..j], es[i].ip)
    ensures var r, wait := es[i].verdict.retryAfter, es[j].now - es[i].now;
            && r >= 1.0 / c.rate
            && (wait <= r - 1.0 / c.rate ==> !es[j].verdict.allowed)
            && (Admissions(es[i..j], es[i].ip) == [] ==>
                  && (es[j].verdict.allowed <==> wait > r - 1.0 / c.rate)
                  && (wait == r ==> Level(c.rate, LiveHistory(es[..j], es[j].ip), es[j].now) == c.capacity - 1.0))
  {
    RefinesLevel(c, es, ms);
    RetryByPolicy(c, es, i, j);
  }

  lemma {:induction false} RetryByPolicy(c: Config, es: seq<Event>, i: nat, j: nat)
    requires c.Valid() && Monotone(es) && Follows(LevelPolicy(c), es)
    requires i < j < |es| && es[i].Call? && es[j].Call? && es[i].ip == es[j].ip
    requires !es[i].verdict.allowed && NeverEvicted(es[i..j], es[i].ip)
    ensures var r, wait := es[i].verdict.retryAfter, es[j].now - es[i].now;
            && r >= 1.0 / c.rate
            && (wait <= r - 1.0 / c.rate ==> !es[j].verdict.allowed)
            && (Admissions(es[i..j], es[i].ip) == [] ==>
                  && (es[j].verdict.allowed <==> wait > r - 1.0 / c.rate)
                  && (wait == r ==> Level(c.rate, LiveHistory(es[..j], es[j].ip), es[j].now) == c.capacity - 1.0))
  {
    var ip, now, t := es[i].ip, es[i].now, es[j].now;
    var h, more := LiveHistory(es[..i], ip), Admissions(es[i..j], ip);
    assert es[i].verdict == Decide(c, Level(c.rate, h, now), now);
    assert es[j].verdict == Decide(c, Level(c.rate, LiveHistory(es[..j], ip), t), t);
    assert LiveHistory(es[..j], ip) == h + more by {
      assert es[..j] == es[..i] + es[i..j];
      LiveHistoryConcat(es[..i], es[i..j], ip);
    }
    LevelAfterDenial(c, h, now, t);
    assert Sorted(h + more) && Until(h + more, t) by {
      LiveHistorySorted(es[..j], ip);
      assert es[..j][j - 1].now <= t;
    }
    LevelMonotone(c.rate, h, more, t);
    if more == [] {
      assert h + more == h;
    }
  }

  // ---------------------------------------------------------------------------
  // Isolation
  // ---------------------------------------------------------------------------

  /** One IP's verdicts depend on nothing but its own call times and evictions. */
  lemma {:induction false} IpsAreIsolated(c: Config, es1: seq<Event>, ms1: seq<Store>, es2: seq<Event>,
                                          ms2: seq<Store>, ip: string)
    requires c.Valid() && IsRun(c, es1, ms1) && IsRun(c, es2, ms2)
    requires InputsOf(es1, ip) == InputsOf(es2, ip)
    ensures VerdictsOf(es1, ip) == VerdictsOf(es2, ip)
  {
    RefinesLevel(c, es1, ms1);
    RefinesLevel(c, es2, ms2);
    Isolation(LevelPolicy(c), es1, es2, ip);
  }

  /** A denied call changes no other verdict, although it leaks the bucket and moves its clock. */
  lemma {:induction false} DenialsChangeNothing(c: Config, es1: seq<Event>, ms1: seq<Store>, es2: seq<Event>,
                                                ms2: seq<Store>,
                             ip: string, before: seq<Input>, now: Time, after: seq<Input>)
    requires c.Valid() && IsRun(c, es1, ms1) && IsRun(c, es2, ms2)
    requires InputsOf(es1, ip) == before + [Request(now)] + after
    requires InputsOf(es2, ip) == before + after
    requires !LevelPolicy(c)(HistoryFrom(LevelPolicy(c), [], before), now).allowed
    ensures exists v1: seq<Verdict>, denial: Verdict, v2: seq<Verdict> ::
              && VerdictsOf(es1, ip) == v1 + [denial] + v2
              && VerdictsOf(es2, ip) == v1 + v2
              && |v1| == Requests(before) && !denial.allowed
  {
    RefinesLevel(c, es1, ms1);
    RefinesLevel(c, es2, ms2);
    DenialsAreTransparent(LevelPolicy(c), es1, es2, ip, before, now, after);
  }

  // ---------------------------------------------------------------------------
  // Memory
  // ---------------------------------------------------------------------------

  /** In every run a cleanup removes nothing: no stored bucket is ever seen empty. */
  lemma {:induction false} CleanupRemovesNothing(c: Config, es: seq<Event>, ms: seq<Store>, i: nat)
    requires c.Valid() && IsRun(c, es, ms) && i < |es| && es[i].Cleanup?
    ensures ms[i + 1] == ms[i]
  {
    assert StepAt(Steps(c), es, ms, i);
    RunPrefix(map[], Steps(c), es, ms, i);
    forall k | k in ms[i] ensures !Idle(ms[i][k], es[i].now) {
      RunInvariant(c, es[..i], ms[..i + 1], k, es[i].now);
    }
  }

  /** A bucket that has in fact run dry and idled past the limit is still there after a cleanup. */
  lemma {:induction false} DryBucketKept(c: Config)
    requires c.Valid()
    ensures exists es: seq<Event>, ms: seq<Store>, ip: string, now: Time ::
              && IsRun(c, es, ms) && |es| == 2 && es[1] == Cleanup(now)
              && ip in ms[1] && now - ms[1][ip].lastLeak > 600.0 && Leaked(c, ms[1], ip, now) == 0.0
              && ip in ms[2]
  {
    var now := IDLE + 1.0 + 1.0 / c.rate;
    var empty: Store, one: Store := map[], map["a" := Bucket(1.0, 0.0)];
    var e := Call("a", 0.0, Decide(c, 0.0, 0.0), None);
    var es, ms := [e, Cleanup(now)], [empty, one, one];
    assert Step(c, empty, e, one) by {
      assert empty["a" := Bucket(0.0 + 1.0, 0.0)] == one;
      assert one.Keys == {"a"};
    }
    assert StepAt(Steps(c), es, ms, 0);
    assert 1.0 / c.rate > 0.0;
    assert StepAt(Steps(c), es, ms, 1);
    assert Leaked(c, ms[1], "a", now) == 0.0 by {
      ProductNonNegative(IDLE + 1.0, c.rate);
      assert (1.0 / c.rate) * c.rate == 1.0;
      assert (now - 0.0) * c.rate == (IDLE + 1.0) * c.rate + (1.0 / c.rate) * c.rate;
    }
    assert es[1] == Cleanup(now) && "a" in ms[1] && "a" in ms[2];
  }

  lemma {:induction false} CallSize(c: Config, m: Store, e: Event, m': Store)
    requires c.Valid() && e.Call? && Step(c, m, e, m')
    requires |m| <= c.maxIPs && "" !in m && e.ip != ""
    ensures |m'| <= c.maxIPs && "" !in m'
    ensures e.ip !in m ==> e.verdict.allowed
  {
    var water := Leaked(c, m, e.ip, e.now);
    UpdateSize(m, e.ip, Bucket(water, e.now));
    UpdateSize(m, e.ip, Bucket(water + 1.0, e.now));
    var m1 := m[e.ip := Bucket(water + 1.0, e.now)];
    if e.verdict.allowed && |m1| > c.maxIPs {
      EvictSize(m1, LastLeak, m', e.victim);
    }
  }

  /** Eviction alone bounds the map, as long as no caller is the empty string. */
  lemma {:induction false} BoundedMemory(c: Config, es: seq<Event>, ms: seq<Store>)
    requires c.Valid() && IsRun(c, es, ms) && NamedCallers(es)
    ensures |ms[|es|]| <= c.maxIPs && "" !in ms[|es|]
  {
    if es != [] {
      var n := |es| - 1;
      RunPrefix(map[], Steps(c), es, ms, n);
      BoundedMemory(c, es[..n], ms[..n + 1]);
      assert StepAt(Steps(c), es, ms, n);
      if es[n].Call? {
        CallSize(c, ms[n], es[n], ms[n + 1]);
      } else {
        CleanupRemovesNothing(c, es, ms, n);
      }
    }
  }

  /** A bucket was last leaked when its IP last called. */
  lemma {:induction false} LastLeakIsLastCall(c: Config, es: seq<Event>, ms: seq<Store>, k: string)
    requires c.Valid() && IsRun(c, es, ms) && k in ms[|es|]
    ensures LastCall(es, k) == Some(ms[|es|][k].lastLeak)
  {
    var n := |es| - 1;
    assert StepAt(Steps(c), es, ms, n);
    if k in ms[n] {
      RunPrefix(map[], Steps(c), es, ms, n);
      LastLeakIsLastCall(c, es[..n], ms[..n + 1], k);
    }
  }

  /** Of the IPs in a map, none last called before `k` did. */
  ghost predicate LongestIdle(es: seq<Event>, m: Store, k: string) {
    && k in m && LastCall(es, k).Some?
    && forall j :: j in m ==> LastCall(es, j).Some? && LastCall(es, k).value <= LastCall(es, j).value
  }

  lemma {:induction false} OldestIsLongestIdle(c: Config, es: seq<Event>, ms: seq<Store>, i: nat, k: string)
    requires c.Valid() && IsRun(c, es, ms) && i < |es| && es[i].Call?
    requires IsOldest(Poured(c, ms[i], es[i].ip, es[i].now), LastLeak, k)
    ensures LongestIdle(es[..i + 1], Poured(c, ms[i], es[i].ip, es[i].now), k)
  {
    var m1 := Poured(c, ms[i], es[i].ip, es[i].now);
    assert es[..i + 1][..i] == es[..i];
    forall j | j in m1 ensures LastCall(es[..i + 1], j) == Some(m1[j].lastLeak) {
      if j != es[i].ip {
        RunPrefix(map[], Steps(c), es, ms, i);
        LastLeakIsLastCall(c, es[..i], ms[..i + 1], j);
      }
    }
    assert LastLeak(m1[k]) == m1[k].lastLeak;
  }

  /** The map once a call is admitted and before anything is evicted. */
  function Poured(c: Config, m: Store, ip: string, now: Time): Store {
    m[ip := Bucket(Leaked(c, m, ip, now) + 1.0, now)]
  }

  /**
   An admission that takes the map over its limit drops exactly one bucket, of an IP
   that has not called for as long as any other in the map; it drops nothing if the
   empty string is such a one. Nothing else is ever evicted.
   */
  lemma {:induction false} EvictsLongestIdle(c: Config, es: seq<Event>, ms: seq<Store>, i: nat)
    requires c.Valid() && IsRun(c, es, ms) && i < |es| && es[i].Call?
    ensures var m1 := Poured(c, ms[i], es[i].ip, es[i].now);
            match es[i].victim
            case Some(k) =>
              && es[i].verdict.allowed && |m1| > c.maxIPs
              && k != "" && ms[i + 1] == m1 - {k} && LongestIdle(es[..i + 1], m1, k)
            case None =>
              es[i].verdict.allowed ==>
                ms[i + 1] == m1 && (|m1| > c.maxIPs ==> LongestIdle(es[..i + 1], m1, ""))
  {
    assert StepAt(Steps(c), es, ms, i);
    if es[i].victim.Some? {
      OldestIsLongestIdle(c, es, ms, i, es[i].victim.value);
    } else if es[i].verdict.allowed && |Poured(c, ms[i], es[i].ip, es[i].now)| > c.maxIPs {
      OldestIsLongestIdle(c, es, ms, i, "");
    }
  }

  // ---------------------------------------------------------------------------
  // The largest map given callers can bring about
  // ---------------------------------------------------------------------------

  function Peak(c: Config, callers: set<string>): nat
    requires c.Valid()
  {
    if "" in callers || |callers| <= c.maxIPs then |callers| else c.maxIPs
  }

  lemma {:induction false} NeverAbovePeak(c: Config, es: seq<Event>, ms: seq<Store>, callers: set<string>)
    requires c.Valid() && IsRun(c, es, ms) && Callers(es) <= callers
    ensures |ms[|es|]| <= Peak(c, callers)
  {
    KeysAreCallers(c, es, ms);
    SubsetSize(ms[|es|].Keys, callers);
    if "" !in callers {
      forall i | 0 <= i < |es| && es[i].Call? ensures es[i].ip != "" {
        CallersSplit(es, i);
      }
      BoundedMemory(c, es, ms);
    }
  }

  lemma {:induction false} HeldTogether(c: Config, ips: set<string>) returns (es: seq<Event>, ms: seq<Store>)
    requires c.Valid() && (|ips| <= c.maxIPs || "" in ips)
    ensures IsRun(c, es, ms) && Callers(es) <= ips && ms[|es|].Keys == ips
  {
    var empty: Store := map[];
    assert Reaches(c, [], [], [empty], 0.0, {}, empty);
    assert empty.Keys + ips == ips;
    es, ms := FillRun(c, [], [empty], empty, 0.0, ips);
    ContinuedCallers([], es, 0.0, ips);
  }

  /**
   How large the map can grow: with the empty string among the callers, as large as
   there are callers, and otherwise at most to `maxIPs`.
   */
  lemma {:induction false} PeakIff(c: Config, callers: set<string>, n: nat)
    requires c.Valid()
    ensures (forall es: seq<Event>, ms: seq<Store> :: IsRun(c, es, ms) && Callers(es) <= callers ==> |ms[|es|]| <= n)
            <==> Peak(c, callers) <= n
  {
    if Peak(c, callers) <= n {
      forall es: seq<Event>, ms: seq<Store> | IsRun(c, es, ms) && Callers(es) <= callers ensures |ms[|es|]| <= n {
        NeverAbovePeak(c, es, ms, callers);
      }
    } else {
      var held := callers;
      if Peak(c, callers) < |callers| {
        held := PartOfSize(callers, c.maxIPs);
      }
      var es, ms := HeldTogether(c, held);
      assert |ms[|es|]| == |held|;
    }
  }

  /** The map keeps to its limit in every run exactly when the empty string does not call or there is room for all. */
  lemma {:induction false} LimitKeptIff(c: Config, callers: set<string>)
    requires c.Valid()
    ensures (forall es: seq<Event>, ms: seq<Store> :: IsRun(c, es, ms) && Callers(es) <= callers ==>
               |ms[|es|]| <= c.maxIPs)
            <==> "" !in callers || |callers| <= c.maxIPs
  {
    PeakIff(c, callers, c.maxIPs);
  }

  /** Once the empty string may call, the map can hold any set of callers with it, of any size. */
  lemma {:induction false} EmptyCallerUnbounded(c: Config, callers: set<string>)
    requires c.Valid() && "" in callers
    ensures exists es: seq<Event>, ms: seq<Store> ::
              IsRun(c, es, ms) && Callers(es) <= callers && ms[|es|].Keys == callers
  {
    var es, ms := HeldTogether(c, callers);
  }
}
