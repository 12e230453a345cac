/** What the sliding-window limiter guarantees over every run. */
module SlidingGuarantees {
  import opened Common
  import opened Timeline
  import opened Traffic
  import opened Crowds
  import opened SlidingWindow
  import opened SlidingRuns

  // ---------------------------------------------------------------------------
  // The window bound
  // ---------------------------------------------------------------------------

  /** An admission made with fewer than `limit` in its own window overfills no window around it. */
  lemma {:induction false} AdmissionBound(c: Config, h: seq<Time>, now: Time, t: Time)
    requires Until(h, now) && |InSpan(h, now - c.window, now)| < c.limit
    requires t <= now <= t + c.window
    ensures |InSpan(h + [now], t, t + c.window)| <= c.limit
  {
    InSpanAppend(h, now, t, t + c.window);
    InSpanCap(h, t, now, t + c.window);
    InSpanNarrow(h, now - c.window, now, t, now);
  }

  lemma {:induction false} HistoryBound(c: Config, es: seq<Event>, ip: string, t: Time)
    requires c.Valid() && Monotone(es) && Follows(NaivePolicy(c), es)
    ensures |InSpan(LiveHistory(es, ip), t, t + c.window)| <= c.limit
  {
    if es != [] {
      var n := |es| - 1;
      var e, h := es[n], LiveHistory(es[..n], ip);
      FollowsPrefix(NaivePolicy(c), es, n);
      HistoryBound(c, es[..n], ip, t);
      if Admits(e, ip) {
        InSpanAppend(h, e.now, t, t + c.window);
        if t <= e.now <= t + c.window {
          PastHistory(es, n, ip);
          assert e.verdict == Naive(c, h, e.now);
          AdmissionBound(c, h, e.now, t);
        }
      }
    }
  }

  /** What is known of the caller's history when event `i` happens. */
  lemma {:induction false} PastHistory(es: seq<Event>, i: nat, ip: string)
    requires Monotone(es) && i < |es|
    ensures Sorted(LiveHistory(es[..i], ip)) && Until(LiveHistory(es[..i], ip), es[i].now)
  {
    LiveHistorySorted(es[..i], ip);
    if i > 0 {
      assert es[..i][i - 1].now <= es[i].now;
    }
  }

  lemma {:induction false} WindowByPolicy(c: Config, es1: seq<Event>, es2: seq<Event>, ip: string, t: Time)
    requires c.Valid() && Monotone(es1 + es2) && Follows(NaivePolicy(c), es1 + es2)
    requires NeverEvicted(es2, ip)
    ensures |InSpan(Admissions(es2, ip), t, t + c.window)| <= c.limit
  {
    HistoryBound(c, es1 + es2, ip, t);
    LiveHistoryConcat(es1, es2, ip);
    InSpanConcat(LiveHistory(es1, ip), Admissions(es2, ip), t, t + c.window);
  }

  /** As long as an IP is not evicted, every closed window holds at most `limit` of its admissions. */
  lemma {:induction false} WindowBound(c: Config, es: seq<Event>, ms: seq<Store>, a: nat, b: nat, ip: string, t: Time)
    requires c.Valid() && IsRun(c, es, ms)
    requires a <= b <= |es| && NeverEvicted(es[a..b], ip)
    ensures |InSpan(Admissions(es[a..b], ip), t, t + c.window)| <= c.limit
  {
    RefinesNaive(c, es, ms);
    FollowsPrefix(NaivePolicy(c), es, b);
    assert Monotone(es[..b]);
    assert es[..b] == es[..a] + es[a..b];
    WindowByPolicy(c, es[..a], es[a..b], ip, t);
  }

  ghost predicate WindowHolds(c: Config, es: seq<Event>, ip: string, t: Time) {
    |InSpan(Admissions(es, ip), t, t + c.window)| <= c.limit
  }

  ghost predicate WindowsHold(c: Config, es: seq<Event>) {
    forall ip: string, t: Time :: WindowHolds(c, es, ip, t)
  }

  /** With more callers than room, one of them can be admitted more than `limit` times in a window. */
  lemma {:induction false} EvictionForgets(c: Config, callers: set<string>)
    requires c.Valid() && 0 < c.maxIPs < |callers|
    ensures exists es: seq<Event>, ms: seq<Store> ::
              IsRun(c, es, ms) && Callers(es) <= callers && !WindowsHold(c, es)
  {
    assert IsRun(c, [], [map[]]);
    var es, ms, ip := CrowdedRun(c, [], [map[]], 0.0, callers, c.limit + 1);
    ContinuedCallers([], es, 0.0, callers);
    assert !WindowHolds(c, es, ip, 0.0);
  }

  lemma {:induction false} RoomyWindows(c: Config, es: seq<Event>, ms: seq<Store>)
    requires c.Valid() && IsRun(c, es, ms) && (c.maxIPs <= 0 || |Callers(es)| <= c.maxIPs)
    ensures WindowsHold(c, es)
  {
    forall ip: string, t: Time ensures WindowHolds(c, es, ip, t) {
      forall i | 0 <= i < |es| ensures !Evicts(es[i], ip) {
        if es[i].Call? {
          RoomyVictim(c, es, ms, i);
        }
      }
      assert es[0..|es|] == es;
      WindowBound(c, es, ms, 0, |es|, ip, t);
    }
  }

  /**
   Every window of every IP holds at most `limit` admissions in every run of the given
   callers exactly when they all have room.
   */
  lemma {:induction false} WindowBoundIff(c: Config, callers: set<string>)
    requires c.Valid()
    ensures (forall es: seq<Event>, ms: seq<Store> :: IsRun(c, es, ms) && Callers(es) <= callers ==> WindowsHold(c, es))
            <==> c.maxIPs <= 0 || |callers| <= c.maxIPs
  {
    if c.maxIPs <= 0 || |callers| <= c.maxIPs {
      forall es: seq<Event>, ms: seq<Store> | IsRun(c, es, ms) && Callers(es) <= callers ensures WindowsHold(c, es) {
        SubsetSize(Callers(es), callers);
        RoomyWindows(c, es, ms);
      }
    } else {
      EvictionForgets(c, callers);
    }
  }

  /** Whoever calls, the bound holds in every run exactly when the map has no limit. */
  lemma {:induction false} WindowBoundForAllIff(c: Config)
    requires c.Valid()
    ensures (forall es: seq<Event>, ms: seq<Store> :: IsRun(c, es, ms) ==> WindowsHold(c, es)) <==> c.maxIPs <= 0
  {
    if c.maxIPs <= 0 {
      forall es: seq<Event>, ms: seq<Store> | IsRun(c, es, ms) ensures WindowsHold(c, es) {
        RoomyWindows(c, es, ms);
      }
    } else {
      EvictionForgets(c, Names(c.maxIPs + 1));
    }
  }

  // ---------------------------------------------------------------------------
  // Retry-after
  // ---------------------------------------------------------------------------

  /** While the oldest counted admission is still in the window, the window stays full. */
  lemma {:induction false} StillFull(c: Config, h: seq<Time>, more: seq<Time>, now: Time, now': Time)
    requires c.Valid() && Sorted(h) && now <= now'
    requires |InSpan(h, now - c.window, now)| == c.limit
    requires now' <= InSpan(h, now - c.window, now)[0] + c.window
    ensures !Naive(c, h + more, now').allowed
  {
    var first := InSpan(h, now - c.window, now)[0];
    InSpanFromFirst(h, now - c.window, now);
    InSpanNarrow(h, now' - c.window, now', first, now);
    InSpanConcat(h, more, now' - c.window, now');
  }

  /** Once the oldest counted admission has left the window, there is room. */
  lemma {:induction false} RoomAgain(c: Config, h: seq<Time>, now: Time, now': Time)
    requires c.Valid() && Until(h, now) && now <= now'
    requires |InSpan(h, now - c.window, now)| == c.limit
    requires now' > InSpan(h, now - c.window, now)[0] + c.window
    ensures Naive(c, h, now').allowed
  {
    InSpanPastFirst(h, now - c.window, now, now' - c.window, now');
  }

  /**
   After a denial the retry time is exact: no call of that IP is admitted up to and
   including that time, and the next one after it is.
   */
  lemma {:induction false} RetryExact(c: Config, es: seq<Event>, ms: seq<Store>, i: nat, j: nat)
    requires c.Valid() && IsRun(c, es, ms)
    requires i < j < |es| && es[i].Call? && es[j].Call? && es[i].ip == es[j].ip
    requires !es[i].verdict.allowed && NeverEvicted(es[i..j], es[i].ip)
    ensures 0.0 <= es[i].verdict.retryAfter <= c.window
    ensures es[j].now <= es[i].now + es[i].verdict.retryAfter ==> !es[j].verdict.allowed
    ensures es[j].now > es[i].now + es[i].verdict.retryAfter && Admissions(es[i..j], es[i].ip) == []
            ==> es[j].verdict.allowed
  {
    RefinesNaive(c, es, ms);
    RetryByPolicy(c, es, i, j);
  }

  lemma {:induction false} RetryByPolicy(c: Config, es: seq<Event>, i: nat, j: nat)
    requires c.Valid() && Monotone(es) && Follows(NaivePolicy(c), es)
    requires i < j < |es| && es[i].Call? && es[j].Call? && es[i].ip == es[j].ip
    requires !es[i].verdict.allowed && NeverEvicted(es[i..j], es[i].ip)
    ensures 0.0 <= es[i].verdict.retryAfter <= c.window
    ensures es[j].now <= es[i].now + es[i].verdict.retryAfter ==> !es[j].verdict.allowed
    ensures es[j].now > es[i].now + es[i].verdict.retryAfter && Admissions(es[i..j], es[i].ip) == []
            ==> es[j].verdict.allowed
  {
    var ip, now, now' := es[i].ip, es[i].now, es[j].now;
    var h, more := LiveHistory(es[..i], ip), Admissions(es[i..j], ip);
    assert es[..j] == es[..i] + es[i..j];
    LiveHistoryConcat(es[..i], es[i..j], ip);
    assert es[i].verdict == Naive(c, h, now);
    assert es[j].verdict == Naive(c, h + more, now');
    PastHistory(es, i, ip);
    FullWindow(c, es, i, h);
    InSpanBounds(h, now - c.window, now);
    if now' <= InSpan(h, now - c.window, now)[0] + c.window {
      StillFull(c, h, more, now, now');
    } else if more == [] {
      assert h + more == h;
      RoomAgain(c, h, now, now');
    }
  }

  /** At a denial the window holds exactly `limit` admissions. */
  lemma {:induction false} FullWindow(c: Config, es: seq<Event>, i: nat, h: seq<Time>)
    requires c.Valid() && Monotone(es) && Follows(NaivePolicy(c), es)
    requires i < |es| && es[i].Call? && h == LiveHistory(es[..i], es[i].ip)
    requires !es[i].verdict.allowed
    ensures |InSpan(h, es[i].now - c.window, es[i].now)| == c.limit
  {
    FollowsPrefix(NaivePolicy(c), es, i);
    HistoryBound(c, es[..i], es[i].ip, es[i].now - c.window);
    assert es[i].now - c.window + c.window == es[i].now;
    assert es[i].verdict == Naive(c, h, es[i].now);
  }

  // ---------------------------------------------------------------------------
  // Remaining
  // ---------------------------------------------------------------------------

  lemma {:induction false} BurstCount(c: Config, h: seq<Time>, now: Time, k: nat)
    requires c.Valid()
    ensures BurstAdmitted(NaivePolicy(c), h, now, k)
            <==> k == 0 || |InSpan(h, now - c.window, now)| + k <= c.limit
    decreases k
  {
    if k > 0 {
      InSpanAppend(h, now, now - c.window, now);
      BurstCount(c, h + [now], now, k - 1);
    }
  }

  /** The history after a call that gets verdict `v`. */
  function HistoryWith(h: seq<Time>, now: Time, v: Verdict): seq<Time> {
    if v.allowed then h + [now] else h
  }

  /** After every verdict `remaining` is exactly the number of further calls that would be admitted at once. */
  lemma {:induction false} RemainingExact(c: Config, h: seq<Time>, now: Time, k: nat)
    requires c.Valid()
    ensures var v := Naive(c, h, now);
            BurstAdmitted(NaivePolicy(c), HistoryWith(h, now, v), now, k) <==> k <= v.remaining
  {
    InSpanAppend(h, now, now - c.window, now);
    BurstCount(c, HistoryWith(h, now, Naive(c, h, now)), now, k);
  }

  lemma {:induction false} InSpanLate(h: seq<Time>, now: Time, lo: Time, hi: Time)
    requires Until(h, now) && lo > now
    ensures InSpan(h, lo, hi) == []
  {
    if InSpan(h, lo, hi) != [] {
      var i, j := InSpanEnds(h, lo, hi);
    }
  }

  /** Whatever was admitted by time `now`, nothing of it is in the window that ends at `t`. */
  ghost predicate WindowForgets(c: Config, now: Time, t: Time) {
    forall g: seq<Time> :: Until(g, now) ==> InSpan(g, t - c.window, t) == []
  }

  /**
   With no further admission the window is empty after the reset time, whatever was
   admitted before; up to that time it need not be, and after an admission is not.
   */
  lemma {:induction false} ResetExact(c: Config, h: seq<Time>, now: Time, t: Time)
    requires c.Valid() && now <= t
    ensures var v := Naive(c, h, now);
            && (WindowForgets(c, now, t) <==> t > v.reset)
            && (v.allowed && t <= v.reset ==> InSpan(h + [now], t - c.window, t) != [])
  {
    var v := Naive(c, h, now);
    InSpanAppend(h, now, t - c.window, t);
    if t > v.reset {
      forall g: seq<Time> | Until(g, now) ensures InSpan(g, t - c.window, t) == [] {
        InSpanLate(g, now, t - c.window, t);
      }
    } else {
      InSpanAppend([], now, t - c.window, t);
      assert Until([now], now) && [] + [now] == [now];
    }
  }

  /**
   Every call of every run is answered by its IP's admissions since its last eviction:
   it is admitted exactly when the closed window ending now holds fewer than `limit` of
   them, `remaining` calls more would be, the window is sure to be empty after the
   reset time and no sooner, and an admitted caller need not wait.
   */
  lemma {:induction false} AnswersExact(c: Config, es: seq<Event>, ms: seq<Store>, i: nat, k: nat, t: Time)
    requires c.Valid() && IsRun(c, es, ms) && i < |es| && es[i].Call?
    ensures var h, now, v := LiveHistory(es[..i], es[i].ip), es[i].now, es[i].verdict;
            && (v.allowed <==> |InSpan(h, now - c.window, now)| < c.limit)
            && (BurstAdmitted(NaivePolicy(c), HistoryWith(h, now, v), now, k) <==> k <= v.remaining)
            && (now <= t ==> (WindowForgets(c, now, t) <==> t > v.reset))
            && (v.allowed ==> v.retryAfter == 0.0)
  {
    RefinesNaive(c, es, ms);
    var h, now := LiveHistory(es[..i], es[i].ip), es[i].now;
    RemainingExact(c, h, now, k);
    if now <= t {
      ResetExact(c, h, now, t);
    }
    assert es[i].verdict == Naive(c, h, now);
  }

  // ---------------------------------------------------------------------------
  // Isolation and cleanup
  // ---------------------------------------------------------------------------

  /** One IP's verdicts depend on nothing but its own call times and evictions. */
  lemma {:induction false} IpsAreIsolated(c: Config, es1: seq<Event>, ms1: seq<Store>, es2: seq<Event>,
                                          ms2: seq<Store>, ip: string)
    requires c.Valid() && IsRun(c, es1, ms1) && IsRun(c, es2, ms2)
    requires InputsOf(es1, ip) == InputsOf(es2, ip)
    ensures VerdictsOf(es1, ip) == VerdictsOf(es2, ip)
  {
    RefinesNaive(c, es1, ms1);
    RefinesNaive(c, es2, ms2);
    Isolation(NaivePolicy(c), es1, es2, ip);
  }
}
