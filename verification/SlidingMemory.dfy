/** How large the sliding-window limiter's map can grow. */
module SlidingMemory {
  import opened Common
  import opened Timeline
  import opened Traffic
  import opened Crowds
  import opened SlidingRuns
  import opened SlidingWindow

  ghost predicate AllPopulated(m: Store) {
    forall k :: k in m ==> m[k] != []
  }

  /** No reachable map stores an empty list. */
  lemma {:induction false} RunPopulated(c: Config, es: seq<Event>, ms: seq<Store>, i: nat)
    requires c.Valid() && IsRun(c, es, ms) && i <= |es|
    ensures AllPopulated(ms[i])
  {
    forall k | k in ms[i] ensures ms[i][k] != [] {
      RunPrefix(map[], Steps(c), es, ms, i);
      RunInvariant(c, es[..i], ms[..i + 1], k, if i == 0 then 0.0 else es[i - 1].now);
    }
  }

  lemma {:induction false} CallSize(c: Config, m: Store, e: Event, m': Store)
    requires c.Valid() && e.Call? && Step(c, m, e, m') && AllPopulated(m)
    requires c.maxIPs > 0 && |m| <= c.maxIPs && "" !in m && e.ip != ""
    ensures |m'| <= c.maxIPs && "" !in m'
    ensures e.ip !in m ==> e.verdict.allowed
  {
    var l := Expire(Stored(m, e.ip), e.now - c.window);
    var m1 := m[e.ip := l + [e.now]];
    UpdateSize(m, e.ip, l);
    UpdateSize(m, e.ip, l + [e.now]);
    assert Populated(m1) == m1 by {
      assert Populated(m1).Keys == m1.Keys;
    }
    if e.verdict.allowed && |m1| > c.maxIPs {
      EvictSize(m1, Front, m', e.victim);
    }
  }

  lemma {:induction false} SweepSize(c: Config, m: Store, now: Time)
    ensures |Swept(c, m, now)| <= |m|
    ensures Swept(c, m, now).Keys <= m.Keys
  {
    SubsetSize(Swept(c, m, now).Keys, m.Keys);
  }

  /** As long as no caller is the empty string, the map never exceeds `maxIPs` entries. */
  lemma {:induction false} BoundedMemory(c: Config, es: seq<Event>, ms: seq<Store>)
    requires c.Valid() && IsRun(c, es, ms)
    requires c.maxIPs > 0 && NamedCallers(es)
    ensures |ms[|es|]| <= c.maxIPs && "" !in ms[|es|]
  {
    if es != [] {
      var n := |es| - 1;
      RunPrefix(map[], Steps(c), es, ms, n);
      BoundedMemory(c, es[..n], ms[..n + 1]);
      assert StepAt(Steps(c), es, ms, n);
      if es[n].Call? {
        RunPopulated(c, es, ms, n);
        CallSize(c, ms[n], es[n], ms[n + 1]);
      } else {
        SweepSize(c, ms[n], es[n].now);
      }
    }
  }

  /** A caller without an entry is admitted, so a denial never adds one. */
  lemma {:induction false} NewcomerAdmitted(c: Config, es: seq<Event>, ms: seq<Store>, i: nat)
    requires c.Valid() && IsRun(c, es, ms) && i < |es| && es[i].Call?
    ensures es[i].ip !in ms[i] ==> es[i].verdict.allowed
    ensures !es[i].verdict.allowed ==> ms[i + 1].Keys == ms[i].Keys
  {
    assert StepAt(Steps(c), es, ms, i);
    CallOutcome(c, ms[i], es[i], ms[i + 1], Expire(Stored(ms[i], es[i].ip), es[i].now - c.window));
  }

  ghost predicate NoneOlder(m: Store, t: Time) {
    forall j :: j in m ==> t <= Front(m[j])
  }

  /** The map once a call is admitted and before anything is evicted. */
  function Grown(c: Config, m: Store, ip: string, now: Time): Store {
    m[ip := Expire(Stored(m, ip), now - c.window) + [now]]
  }

  ghost predicate OverLimit(c: Config, m: Store) {
    c.maxIPs > 0 && |m| > c.maxIPs
  }

  lemma {:induction false} EvictionOutcome(c: Config, m: Store, e: Event, m': Store)
    requires c.Valid() && AllPopulated(m) && e.Call? && Step(c, m, e, m')
    ensures var m1 := Grown(c, m, e.ip, e.now);
            match e.victim
            case Some(k) =>
              && e.verdict.allowed && OverLimit(c, m1)
              && k != "" && k in m1 && m' == m1 - {k} && NoneOlder(m1, Front(m1[k]))
            case None =>
              e.verdict.allowed ==>
                m' == m1 && (OverLimit(c, m1) ==> "" in m1 && NoneOlder(m1, Front(m1[""])))
  {
    var m1 := Grown(c, m, e.ip, e.now);
    assert Populated(m1) == m1 by {
      assert Populated(m1).Keys == m1.Keys;
    }
  }

  /**
   An admission that takes the map over its limit drops exactly one entry, none of
   those before it being older; it drops nothing if the empty string's entry is such a
   one. Nothing else is ever evicted.
   */
  lemma {:induction false} EvictsOldest(c: Config, es: seq<Event>, ms: seq<Store>, i: nat)
    requires c.Valid() && IsRun(c, es, ms) && i < |es| && es[i].Call?
    ensures var m1 := Grown(c, ms[i], es[i].ip, es[i].now);
            match es[i].victim
            case Some(k) =>
              && es[i].verdict.allowed && OverLimit(c, m1)
              && k != "" && k in m1 && ms[i + 1] == m1 - {k} && NoneOlder(m1, Front(m1[k]))
            case None =>
              es[i].verdict.allowed ==>
                ms[i + 1] == m1 && (OverLimit(c, m1) ==> "" in m1 && NoneOlder(m1, Front(m1[""])))
  {
    RunPopulated(c, es, ms, i);
    assert StepAt(Steps(c), es, ms, i);
    EvictionOutcome(c, ms[i], es[i], ms[i + 1]);
  }

  // ---------------------------------------------------------------------------
  // Denials
  // ---------------------------------------------------------------------------

  lemma {:induction false} ExpireShortens(l: seq<Time>, cutoff: Time)
    ensures |Expire(l, cutoff)| <= |l| && (|Expire(l, cutoff)| == |l| ==> Expire(l, cutoff) == l)
  {
    if l != [] && l[0] < cutoff {
      ExpireShortens(l[1..], cutoff);
    }
  }

  ghost predicate AtMostLimit(c: Config, m: Store) {
    forall k :: k in m ==> |m[k]| <= c.limit
  }

  lemma {:induction false} StepAtMostLimit(c: Config, m: Store, e: Event, m': Store)
    requires c.Valid() && AtMostLimit(c, m) && Step(c, m, e, m')
    ensures AtMostLimit(c, m')
    ensures e.Call? && !e.verdict.allowed && AllPopulated(m') ==> m' == m
  {
    if e.Call? {
      ExpireShortens(Stored(m, e.ip), e.now - c.window);
    }
  }

  lemma {:induction false} RunAtMostLimit(c: Config, es: seq<Event>, ms: seq<Store>)
    requires c.Valid() && IsRun(c, es, ms)
    ensures AtMostLimit(c, ms[|es|])
  {
    if es != [] {
      var n := |es| - 1;
      RunPrefix(map[], Steps(c), es, ms, n);
      RunAtMostLimit(c, es[..n], ms[..n + 1]);
      assert StepAt(Steps(c), es, ms, n);
      StepAtMostLimit(c, ms[n], es[n], ms[n + 1]);
    }
  }

  /**
   A denial finds nothing to prune and leaves the map as it was, so dropping the denied
   call from a run leaves a run in which every other call has the same verdict.
   */
  lemma {:induction false} DenialChangesNothing(c: Config, es: seq<Event>, ms: seq<Store>, i: nat)
    requires c.Valid() && IsRun(c, es, ms) && i < |es| && es[i].Call? && !es[i].verdict.allowed
    ensures ms[i + 1] == ms[i]
    ensures IsRun(c, Dropped(es, i), Dropped(ms, i))
  {
    RunPrefix(map[], Steps(c), es, ms, i);
    RunAtMostLimit(c, es[..i], ms[..i + 1]);
    RunPopulated(c, es, ms, i + 1);
    assert StepAt(Steps(c), es, ms, i);
    StepAtMostLimit(c, ms[i], es[i], ms[i + 1]);
    RunDrop(map[], Steps(c), es, ms, i);
  }

  // ---------------------------------------------------------------------------
  // The largest map given callers can bring about
  // ---------------------------------------------------------------------------

  function Peak(c: Config, callers: set<string>): nat {
    if c.maxIPs <= 0 || "" in callers || |callers| <= c.maxIPs then |callers| else c.maxIPs
  }

  lemma {:induction false} NeverAbovePeak(c: Config, es: seq<Event>, ms: seq<Store>, callers: set<string>)
    requires c.Valid() && IsRun(c, es, ms) && Callers(es) <= callers
    ensures |ms[|es|]| <= Peak(c, callers)
  {
    KeysAreCallers(c, es, ms);
    SubsetSize(ms[|es|].Keys, callers);
    if c.maxIPs > 0 && "" !in callers {
      forall i | 0 <= i < |es| && es[i].Call? ensures es[i].ip != "" {
        CallersSplit(es, i);
      }
      BoundedMemory(c, es, ms);
    }
  }

  lemma {:induction false} PeakReached(c: Config, callers: set<string>) returns (es: seq<Event>, ms: seq<Store>)
    requires c.Valid()
    ensures IsRun(c, es, ms) && Callers(es) <= callers && |ms[|es|]| == Peak(c, callers)
  {
    var held := callers;
    if Peak(c, callers) < |callers| {
      held := PartOfSize(callers, c.maxIPs);
    }
    assert IsRun(c, [], [map[]]);
    es, ms := FillRun(c, [], [map[]], 0.0, held);
    ContinuedCallers([], es, 0.0, held);
    assert |ms[|es|]| == |held|;
  }

  /**
   How large the map can grow: with the empty string among the callers, as large as
   there are callers, and otherwise at most to `maxIPs`.
   */
  lemma {:induction false} PeakIff(c: Config, callers: set<string>, n: nat)
    requires c.Valid()
    ensures (forall es: seq<Event>, ms: seq<Store> :: IsRun(c, es, ms) && Callers(es) <= callers ==> |ms[|es|]| <= n)
            <==> Peak(c, callers) <= n
  {
    if Peak(c, callers) <= n {
      forall es: seq<Event>, ms: seq<Store> | IsRun(c, es, ms) && Callers(es) <= callers ensures |ms[|es|]| <= n {
        NeverAbovePeak(c, es, ms, callers);
      }
    } else {
      var es, ms := PeakReached(c, callers);
    }
  }

  /** The map keeps to its limit in every run exactly when the empty string does not call or there is room for all. */
  lemma {:induction false} LimitKeptIff(c: Config, callers: set<string>)
    requires c.Valid() && c.maxIPs > 0
    ensures (forall es: seq<Event>, ms: seq<Store> :: IsRun(c, es, ms) && Callers(es) <= callers ==>
               |ms[|es|]| <= c.maxIPs)
            <==> "" !in callers || |callers| <= c.maxIPs
  {
    PeakIff(c, callers, c.maxIPs);
  }

  /** Once the empty string may call, the map can hold any set of callers with it, of any size. */
  lemma {:induction false} EmptyCallerUnbounded(c: Config, callers: set<string>)
    requires c.Valid() && "" in callers
    ensures exists es: seq<Event>, ms: seq<Store> ::
              IsRun(c, es, ms) && Callers(es) <= callers && ms[|es|].Keys == callers
  {
    assert IsRun(c, [], [map[]]);
    var es, ms := FillRun(c, [], [map[]], 0.0, callers);
    ContinuedCallers([], es, 0.0, callers);
  }
}
