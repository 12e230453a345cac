/**
 Runs of the sliding-window limiter with cleanups put in: for which callers the ticks
 can come at any times at all without a call being answered differently.
 */
module SlidingTicks {
  import opened Common
  import opened Timeline
  import opened Traffic
  import opened Crowds
  import opened SlidingCleanup
  import opened SlidingMemory
  import opened SlidingRuns
  import opened SlidingShadow
  import opened SlidingWindow

  /** `plan` is in order and makes the calls of `es` with their verdicts; its ticks are where it likes. */
  ghost predicate Reschedules(plan: seq<Event>, es: seq<Event>) {
    Monotone(plan) && SameCalls(WithoutCleanups(plan), WithoutCleanups(es))
  }

  /** Some run has these events, except for what they evict. */
  ghost predicate HasRun(c: Config, plan: seq<Event>) {
    exists es: seq<Event>, ms: seq<Store> :: IsRun(c, es, ms) && SameEvents(es, plan)
  }

  ghost predicate Unswept(es: seq<Event>) {
    forall i :: 0 <= i < |es| ==> es[i].Call?
  }

  lemma {:induction false} UnsweptErasure(es: seq<Event>)
    requires Unswept(es)
    ensures WithoutCleanups(es) == es
  {
    ErasedPrefix([], es);
  }

  // ---------------------------------------------------------------------------
  // One step
  // ---------------------------------------------------------------------------

  /** When the larger map evicts, the smaller one evicts the same entry, or needs no eviction. */
  lemma {:induction false} EvictionUnderShadow(c: Config, m1: Store, m1': Store, m2': Store, victim': Option<string>,
                                               cut: Time)
    returns (m2: Store, victim: Option<string>)
    requires Shadow(m1, m1', cut) && Trimmed(c, m1', m2', victim')
    requires c.maxIPs <= 0 || |m1'| <= c.maxIPs + 1
    ensures Trimmed(c, m1, m2, victim) && Shadow(m2, m2', cut)
  {
    ShadowSize(m1, m1', cut);
    if m1 == m1' {
      m2, victim := m2', victim';
    } else {
      m2, victim := m1, None;
      if victim'.Some? {
        assert victim'.value !in m1 by {
          var extra :| extra in m1' && extra !in m1;
        }
      }
    }
  }

  lemma {:induction false} DenialUnderShadow(c: Config, m: Store, m': Store, e: Event, m2': Store, cut: Time)
    returns (m2: Store)
    requires c.Valid() && e.Call? && Step(c, m', e, m2') && !e.verdict.allowed
    requires Shadow(m, m', cut) && cut <= e.now - c.window
    requires Expire(Stored(m, e.ip), e.now - c.window) == Expire(Stored(m', e.ip), e.now - c.window)
    ensures Step(c, m, e, m2) && Shadow(m2, m2', cut)
  {
    var r := Expire(Stored(m, e.ip), e.now - c.window);
    ExpireTracks(Stored(m, e.ip), e.now - c.window);
    m2 := m[e.ip := r];
    assert r != [];
  }

  lemma {:induction false} GrowthUnderShadow(c: Config, m: Store, m': Store, ip: string, now: Time, m2': Store,
                                             victim': Option<string>, cut: Time)
    returns (m2: Store, victim: Option<string>)
    requires c.Valid() && Shadow(m, m', cut) && cut <= now - c.window
    requires Expire(Stored(m, ip), now - c.window) == Expire(Stored(m', ip), now - c.window)
    requires c.maxIPs <= 0 || |m'.Keys + {ip}| <= c.maxIPs + 1
    requires Trimmed(c, Grown(c, m', ip, now), m2', victim')
    ensures Trimmed(c, Grown(c, m, ip, now), m2, victim) && Shadow(m2, m2', cut)
  {
    var m1, m1' := Grown(c, m, ip, now), Grown(c, m', ip, now);
    GrownShadow(c, m, m', ip, now, cut);
    assert |m1'| == |m'.Keys + {ip}| by {
      assert m1'.Keys == m'.Keys + {ip};
    }
    m2, victim := EvictionUnderShadow(c, m1, m1', m2', victim', cut);
  }

  lemma {:induction false} AdmissionUnderShadow(c: Config, m: Store, m': Store, e: Event, m2': Store, cut: Time)
    returns (e1: Event, m2: Store)
    requires c.Valid() && AllPopulated(m) && e.Call? && e.verdict.allowed
    requires e.verdict == Decide(c, Expire(Stored(m', e.ip), e.now - c.window), e.now)
    requires Trimmed(c, Grown(c, m', e.ip, e.now), m2', e.victim)
    requires Shadow(m, m', cut) && cut <= e.now - c.window
    requires Expire(Stored(m, e.ip), e.now - c.window) == Expire(Stored(m', e.ip), e.now - c.window)
    requires c.maxIPs <= 0 || |m'.Keys + {e.ip}| <= c.maxIPs + 1
    ensures SameCall(e1, e) && Step(c, m, e1, m2) && Shadow(m2, m2', cut)
  {
    var victim;
    m2, victim := GrowthUnderShadow(c, m, m', e.ip, e.now, m2', e.victim, cut);
    e1 := e.(victim := victim);
    TrimmedIsStep(c, m, e1, m2);
  }

  /** The next call of the run without ticks can be made in the run with them. */
  lemma {:induction false} CallUnderShadow(c: Config, m: Store, es: seq<Event>, ms: seq<Store>, cut: Time,
                                           callers: set<string>)
    returns (e1: Event, m2: Store)
    requires c.Valid() && AllPopulated(m) && IsRun(c, es, ms) && es != [] && es[|es| - 1].Call?
    requires Callers(es) <= callers && Lossless(c, callers)
    requires Shadow(m, ms[|es| - 1], cut) && cut <= es[|es| - 1].now - 2.0 * c.window
    ensures SameCall(e1, es[|es| - 1]) && Step(c, m, e1, m2) && Shadow(m2, ms[|es|], cut)
  {
    var n := |es| - 1;
    var e, es0, ms0 := es[n], es[..n], ms[..n + 1];
    LastStep(c, es, ms);
    SamePruned(c, m, es0, ms0, cut, e.ip, e.now);
    if e.verdict.allowed {
      RunPopulated(c, es0, ms0, n);
      NextSize(c, es0, ms0, e.ip, callers);
      AdmissionTrims(c, ms[n], e, ms[n + 1]);
      e1, m2 := AdmissionUnderShadow(c, m, ms[n], e, ms[n + 1], cut);
    } else {
      e1 := e;
      m2 := DenialUnderShadow(c, m, ms[n], e, ms[n + 1], cut);
    }
  }

  // ---------------------------------------------------------------------------
  // Runs
  // ---------------------------------------------------------------------------

  /** `es1`, `ms1` is a run of the plan, shadowed by the run without ticks. */
  ghost predicate Ticked(c: Config, plan: seq<Event>, m': Store, es1: seq<Event>, ms1: seq<Store>, cut: Time) {
    IsRun(c, es1, ms1) && SameEvents(es1, plan) && Shadow(ms1[|es1|], m', cut)
  }

  lemma {:induction false} TickedExtend(c: Config, plan: seq<Event>, es1: seq<Event>, ms1: seq<Store>,
                                        p: Event, e1: Event, m2: Store, m2': Store, cut: Time)
    requires IsRun(c, es1, ms1) && SameEvents(es1, plan) && Monotone(plan + [p])
    requires SameEvent(e1, p) && Step(c, ms1[|es1|], e1, m2) && Shadow(m2, m2', cut)
    ensures Ticked(c, plan + [p], m2', es1 + [e1], ms1 + [m2], cut)
  {
    var plan' := plan + [p];
    assert plan'[|plan|] == p;
    if plan != [] {
      assert SameEvent(es1[|es1| - 1], plan[|plan| - 1]);
      assert plan'[|plan| - 1].now <= plan'[|plan|].now;
    }
    RunExtend(map[], Steps(c), es1, ms1, e1, m2);
  }

  lemma {:induction false} TickedCall(c: Config, plan: seq<Event>, p: Event, es: seq<Event>, ms: seq<Store>,
                                      es0: seq<Event>, ms0: seq<Store>, cut: Time, callers: set<string>)
    returns (es1: seq<Event>, ms1: seq<Store>)
    requires c.Valid() && IsRun(c, es, ms) && es != [] && SameCall(p, es[|es| - 1])
    requires Callers(es) <= callers && Lossless(c, callers)
    requires Ticked(c, plan, ms[|es| - 1], es0, ms0, cut) && Monotone(plan + [p])
    requires cut <= p.now - 2.0 * c.window
    ensures Ticked(c, plan + [p], ms[|es|], es1, ms1, cut)
  {
    RunPopulated(c, es0, ms0, |es0|);
    var e1, m2 := CallUnderShadow(c, ms0[|es0|], es, ms, cut, callers);
    TickedExtend(c, plan, es0, ms0, p, e1, m2, ms[|es|], cut);
    es1, ms1 := es0 + [e1], ms0 + [m2];
  }

  lemma {:induction false} SweptUnderShadow(c: Config, m: Store, m': Store, cut: Time, now: Time)
    requires Shadow(m, m', cut) && cut <= now - 2.0 * c.window && AllPopulated(m)
    ensures Shadow(Swept(c, m, now), m', now - 2.0 * c.window)
  {
  }

  lemma {:induction false} TickedSweep(c: Config, plan: seq<Event>, p: Event, m': Store,
                                       es0: seq<Event>, ms0: seq<Store>, cut: Time)
    returns (es1: seq<Event>, ms1: seq<Store>, cut1: Time)
    requires c.Valid() && p.Cleanup? && Ticked(c, plan, m', es0, ms0, cut) && Monotone(plan + [p])
    requires cut <= p.now - 2.0 * c.window
    ensures Ticked(c, plan + [p], m', es1, ms1, cut1) && cut1 == p.now - 2.0 * c.window
  {
    RunPopulated(c, es0, ms0, |es0|);
    var m2 := Swept(c, ms0[|es0|], p.now);
    cut1 := p.now - 2.0 * c.window;
    SweptUnderShadow(c, ms0[|es0|], m', cut, p.now);
    TickedExtend(c, plan, es0, ms0, p, p, m2, m', cut1);
    es1, ms1 := es0 + [p], ms0 + [m2];
  }

  /** What goes before the last event of a plan, and before the call it makes. */
  lemma {:induction false} PlanBefore(plan: seq<Event>, es: seq<Event>)
    requires plan != [] && Monotone(plan) && SameCalls(WithoutCleanups(plan), es)
    ensures var before, p := plan[..|plan| - 1], plan[|plan| - 1];
            && plan == before + [p] && Monotone(before) && (before != [] ==> before[|before| - 1].now <= p.now)
            && if p.Call? then es != [] && SameCall(p, es[|es| - 1])
                               && SameCalls(WithoutCleanups(before), es[..|es| - 1])
               else SameCalls(WithoutCleanups(before), es)
  {
    var before, p := plan[..|plan| - 1], plan[|plan| - 1];
    assert plan == before + [p];
    ErasureExtend(before, p);
    if p.Call? {
      var calls := WithoutCleanups(before);
      assert SameCall((calls + [p])[|calls|], es[|calls|]);
      forall i | 0 <= i < |calls| ensures SameCall(calls[i], es[i]) {
        assert SameCall((calls + [p])[i], es[i]);
      }
    }
  }

  /** The run with ticks that goes with a run without. */
  lemma {:induction false} TickedRun(c: Config, plan: seq<Event>, es: seq<Event>, ms: seq<Store>, callers: set<string>,
                                     now: Time)
    returns (es1: seq<Event>, ms1: seq<Store>, cut: Time)
    requires c.Valid() && Lossless(c, callers)
    requires IsRun(c, es, ms) && Callers(es) <= callers
    requires Monotone(plan) && SameCalls(WithoutCleanups(plan), es) && (plan != [] ==> plan[|plan| - 1].now <= now)
    ensures Ticked(c, plan, ms[|es|], es1, ms1, cut) && cut <= now - 2.0 * c.window
    decreases |plan|
  {
    if plan == [] {
      es1, ms1, cut := [], [map[]], now - 2.0 * c.window;
    } else {
      var before, p := plan[..|plan| - 1], plan[|plan| - 1];
      PlanBefore(plan, es);
      if p.Call? {
        var n := |es| - 1;
        assert IsRun(c, es[..n], ms[..n + 1]) && Callers(es[..n]) <= callers by {
          LastStep(c, es, ms);
        }
        es1, ms1, cut := TickedRun(c, before, es[..n], ms[..n + 1], callers, p.now);
        es1, ms1 := TickedCall(c, before, p, es, ms, es1, ms1, cut, callers);
      } else {
        es1, ms1, cut := TickedRun(c, before, es, ms, callers, p.now);
        es1, ms1, cut := TickedSweep(c, before, p, ms[|es|], es1, ms1, cut);
      }
    }
  }

  // ---------------------------------------------------------------------------
  // Where a tick must change a verdict
  // ---------------------------------------------------------------------------

  /** Every caller has used up the limit. */
  ghost predicate UsedUp(c: Config, m: Store, ips: set<string>) {
    forall ip :: ip in ips ==> |Stored(m, ip)| >= c.limit
  }

  /** A run in which the empty string called at time 0 and the others at time `t`. */
  ghost predicate Shielding(c: Config, es: seq<Event>, ms: seq<Store>, t: Time, ips: set<string>) {
    && IsRun(c, es, ms) && Shielded(ms[|es|], t)
    && es != [] && es[0].Call? && es[0].ip == "" && es[0].now == 0.0
    && forall i :: 0 < i < |es| ==> es[i].Call? && es[i].ip in ips && es[i].now == t
  }

  /** A list that starts at the present time is not pruned, so one more call is admitted below the limit. */
  lemma {:induction false} ShieldedCall(c: Config, m: Store, t: Time, ip: string) returns (e: Event, m': Store)
    requires c.Valid() && Shielded(m, t) && t > 0.0 && ip != ""
    ensures e.Call? && e.ip == ip && e.now == t && Step(c, m, e, m') && Shielded(m', t)
    ensures e.verdict.allowed <==> |Stored(m, ip)| < c.limit
    ensures m' == if e.verdict.allowed then m[ip := Stored(m, ip) + [t]] else m
  {
    var l := Stored(m, ip);
    assert Expire(l, t - c.window) == l;
    e := Call(ip, t, Decide(c, l, t), None);
    m' := if e.verdict.allowed then m[ip := l + [t]] else m;
    assert AllPopulated(m');
    assert Populated(m').Keys == m'.Keys;
    assert Shielded(m', t);
    assert m'[""] == [0.0];
    assert IsOldest(m', Front, "");
    if !e.verdict.allowed {
      assert ip in m && m[ip := l] == m;
    }
  }

  lemma {:induction false} ShieldingNext(c: Config, es0: seq<Event>, ms0: seq<Store>, t: Time, ips: set<string>,
                                         ip: string)
    returns (es: seq<Event>, ms: seq<Store>)
    requires c.Valid() && Shielding(c, es0, ms0, t, ips) && t > 0.0 && ip in ips && "" !in ips
    ensures Shielding(c, es, ms, t, ips) && |es| == |es0| + 1 && es0 <= es && es[|es0|].ip == ip
    ensures es[|es0|].verdict.allowed <==> |Stored(ms0[|es0|], ip)| < c.limit
    ensures ms[|es|] == if es[|es0|].verdict.allowed then ms0[|es0|][ip := Stored(ms0[|es0|], ip) + [t]] else ms0[|es0|]
  {
    var e, m' := ShieldedCall(c, ms0[|es0|], t, ip);
    RunExtend(map[], Steps(c), es0, ms0, e, m');
    es, ms := es0 + [e], ms0 + [m'];
  }

  /** One caller calls until the limit is used up. */
  lemma {:induction false} UseUp(c: Config, es0: seq<Event>, ms0: seq<Store>, t: Time, ips: set<string>, ip: string,
                                 done: set<string>)
    returns (es: seq<Event>, ms: seq<Store>)
    requires c.Valid() && Shielding(c, es0, ms0, t, ips) && t > 0.0 && ip in ips && "" !in ips
    requires UsedUp(c, ms0[|es0|], done)
    ensures Shielding(c, es, ms, t, ips) && UsedUp(c, ms[|es|], done + {ip})
    decreases c.limit - |Stored(ms0[|es0|], ip)|
  {
    if |Stored(ms0[|es0|], ip)| >= c.limit {
      es, ms := es0, ms0;
    } else {
      es, ms := ShieldingNext(c, es0, ms0, t, ips, ip);
      es, ms := UseUp(c, es, ms, t, ips, ip, done);
    }
  }

  lemma {:induction false} UseUpAll(c: Config, es0: seq<Event>, ms0: seq<Store>, t: Time, ips: set<string>,
                                    done: set<string>)
    returns (es: seq<Event>, ms: seq<Store>)
    requires c.Valid() && Shielding(c, es0, ms0, t, ips) && t > 0.0 && done <= ips && "" !in ips
    requires UsedUp(c, ms0[|es0|], done)
    ensures Shielding(c, es, ms, t, ips) && UsedUp(c, ms[|es|], ips)
    decreases |ips - done|
  {
    if done == ips {
      es, ms := es0, ms0;
    } else {
      var ip :| ip in ips && ip !in done;
      es, ms := UseUp(c, es0, ms0, t, ips, ip, done);
      assert ips - (done + {ip}) == (ips - done) - {ip};
      es, ms := UseUpAll(c, es, ms, t, ips, done + {ip});
    }
  }

  /** From position `p` on every call is denied, and each of some callers makes one. */
  ghost predicate AllDenied(es: seq<Event>, p: nat, ips: set<string>) {
    && 0 < p <= |es|
    && (forall q :: p <= q < |es| ==> es[q].Call? && !es[q].verdict.allowed)
    && (forall ip :: ip in ips ==> exists q :: p <= q < |es| && es[q].Call? && es[q].ip == ip)
  }

  lemma {:induction false} DenyAll(c: Config, es0: seq<Event>, ms0: seq<Store>, t: Time, ips: set<string>,
                                   todo: set<string>)
    returns (es: seq<Event>, ms: seq<Store>)
    requires c.Valid() && Shielding(c, es0, ms0, t, ips) && t > 0.0 && todo <= ips && "" !in ips
    requires UsedUp(c, ms0[|es0|], ips)
    ensures Shielding(c, es, ms, t, ips) && UsedUp(c, ms[|es|], ips)
    ensures AllDenied(es, |es0|, todo)
  {
    if todo == {} {
      es, ms := es0, ms0;
    } else {
      var ip :| ip in todo;
      var es1, ms1 := DenyAll(c, es0, ms0, t, ips, todo - {ip});
      es, ms := ShieldingNext(c, es1, ms1, t, ips, ip);
      DeniedNext(es1, es, |es0|, todo, ip);
    }
  }

  lemma {:induction false} DeniedNext(es1: seq<Event>, es: seq<Event>, p: nat, todo: set<string>, ip: string)
    requires AllDenied(es1, p, todo - {ip}) && es1 <= es && |es| == |es1| + 1
    requires es[|es1|].Call? && es[|es1|].ip == ip && !es[|es1|].verdict.allowed
    ensures AllDenied(es, p, todo)
  {
    forall q | p <= q < |es| ensures es[q].Call? && !es[q].verdict.allowed {
      assert q < |es1| ==> es[q] == es1[q];
    }
    forall k | k in todo ensures exists q :: p <= q < |es| && es[q].Call? && es[q].ip == k {
      if k != ip {
        assert k in todo - {ip};
        var q :| p <= q < |es1| && es1[q].Call? && es1[q].ip == k;
        assert es[q] == es1[q];
      } else {
        assert p <= |es1| < |es|;
      }
    }
  }

  /** Shielded by the empty string, any number of callers use up their limits and are denied. */
  lemma {:induction false} DeniedRun(c: Config, t: Time, ips: set<string>)
    returns (es: seq<Event>, ms: seq<Store>, p: nat)
    requires c.Valid() && t > 0.0 && "" !in ips
    ensures Shielding(c, es, ms, t, ips) && AllDenied(es, p, ips)
  {
    var empty: Store, one: Store := map[], map["" := [0.0]];
    var victim: Option<string> := None;
    es, ms := [Call("", 0.0, Decide(c, [], 0.0), victim)], [empty, one];
    assert Step(c, empty, es[0], one) by {
      assert Expire(Stored(empty, ""), 0.0 - c.window) == [] && [] + [0.0] == [0.0];
      assert empty["" := [0.0]] == one && one.Keys == {""};
    }
    assert StepAt(Steps(c), es, ms, 0);
    es, ms := UseUpAll(c, es, ms, t, ips, {});
    p := |es|;
    es, ms := DenyAll(c, es, ms, t, ips, ips);
  }

  /** Once a cleanup has dropped the empty string's list, the map keeps to its limit. */
  lemma {:induction false} KeepsToLimit(c: Config, es: seq<Event>, ms: seq<Store>, t: Time, i: nat)
    requires c.Valid() && c.maxIPs > 0 && t > 2.0 * c.window && IsRun(c, es, ms) && 2 <= i <= |es|
    requires es[0].Call? && es[0].ip == "" && es[0].now == 0.0 && es[1] == Cleanup(t)
    requires forall q :: 2 <= q < |es| ==> es[q].Call? && es[q].ip != ""
    ensures |ms[i]| <= c.maxIPs && "" !in ms[i]
    decreases i
  {
    if i == 2 {
      assert StepAt(Steps(c), es, ms, 0);
      assert StepAt(Steps(c), es, ms, 1);
      FirstShield(c, es[0], ms[1]);
      assert Swept(c, ms[1], t) == map[];
    } else {
      KeepsToLimit(c, es, ms, t, i - 1);
      RunPopulated(c, es, ms, i - 1);
      assert StepAt(Steps(c), es, ms, i - 1);
      CallSize(c, ms[i - 1], es[i - 1], ms[i]);
    }
  }

  /** While every call is denied the map's IPs stay. */
  lemma {:induction false} DeniedKeys(c: Config, es: seq<Event>, ms: seq<Store>, p: nat, q: nat)
    requires c.Valid() && IsRun(c, es, ms) && p <= q <= |es|
    requires forall i :: p <= i < q ==> es[i].Call? && !es[i].verdict.allowed
    ensures ms[q].Keys == ms[p].Keys
    decreases q
  {
    if p < q {
      DeniedKeys(c, es, ms, p, q - 1);
      NewcomerAdmitted(c, es, ms, q - 1);
    }
  }

  /** Only callers with an entry can all be denied. */
  lemma {:induction false} DeniedHaveEntries(c: Config, es: seq<Event>, ms: seq<Store>, p: nat, ips: set<string>)
    requires c.Valid() && IsRun(c, es, ms) && AllDenied(es, p, ips)
    ensures |ips| <= |ms[p]|
  {
    forall ip | ip in ips ensures ip in ms[p] {
      var q :| p <= q < |es| && es[q].Call? && es[q].ip == ip;
      DeniedKeys(c, es, ms, p, q);
      NewcomerAdmitted(c, es, ms, q);
    }
    SubsetSize(ips, ms[p].Keys);
  }

  /** The calls of a run, with one tick after the first. */
  function WithTick(es: seq<Event>, t: Time): seq<Event>
    requires es != []
  {
    [es[0], Cleanup(t)] + es[1..]
  }

  lemma {:induction false} TickPlan(c: Config, es: seq<Event>, ms: seq<Store>, t: Time, ips: set<string>)
    requires c.Valid() && Shielding(c, es, ms, t, ips) && t > 0.0
    ensures Unswept(es) && Reschedules(WithTick(es, t), es)
  {
    var plan := WithTick(es, t);
    assert plan[0] == es[0] && plan[1] == Cleanup(t);
    assert forall i :: 2 <= i < |plan| ==> plan[i] == es[i - 1];
    ErasedShield(plan[..2], plan);
    assert [plan[0]] + plan[2..] == es;
    UnsweptErasure(es);
  }

  lemma {:induction false} NoTickedRun(c: Config, es: seq<Event>, ms: seq<Store>, t: Time, p: nat, ips: set<string>)
    requires c.Valid() && c.maxIPs > 0 && t > 2.0 * c.window && |ips| > c.maxIPs && "" !in ips
    requires Shielding(c, es, ms, t, ips) && AllDenied(es, p, ips)
    ensures !HasRun(c, WithTick(es, t))
  {
    var plan := WithTick(es, t);
    if es': seq<Event>, ms': seq<Store> :| IsRun(c, es', ms') && SameEvents(es', plan) {
      assert SameEvent(es'[0], plan[0]) && SameEvent(es'[1], plan[1]);
      forall q | 2 <= q < |es'| ensures SameCall(es'[q], es[q - 1]) {
        assert SameEvent(es'[q], plan[q]) && plan[q] == es[q - 1];
      }
      KeepsToLimit(c, es', ms', t, p + 1);
      assert AllDenied(es', p + 1, ips) by {
        forall ip | ip in ips ensures exists q :: p + 1 <= q < |es'| && es'[q].Call? && es'[q].ip == ip {
          var q :| p <= q < |es| && es[q].Call? && es[q].ip == ip;
          assert SameCall(es'[q + 1], es[q]);
        }
      }
      DeniedHaveEntries(c, es', ms', p + 1, ips);
    }
  }

  lemma {:induction false} ShieldingCallers(c: Config, es: seq<Event>, ms: seq<Store>, t: Time, ips: set<string>)
    requires Shielding(c, es, ms, t, ips)
    ensures Callers(es) <= ips + {""}
  {
    forall e | e in es && e.Call? ensures e.ip in ips + {""} {
      var i :| 0 <= i < |es| && es[i] == e;
    }
  }

  /** With the empty string and more other callers than room, one tick put in can make a verdict impossible. */
  lemma {:induction false} TickCanMatter(c: Config, callers: set<string>)
    returns (es: seq<Event>, ms: seq<Store>, plan: seq<Event>)
    requires c.Valid() && !Lossless(c, callers)
    ensures IsRun(c, es, ms) && Callers(es) <= callers && Unswept(es) && Reschedules(plan, es) && !HasRun(c, plan)
  {
    var t, ips, p := 2.0 * c.window + 1.0, callers - {""}, 0;
    es, ms, p := DeniedRun(c, t, ips);
    plan := WithTick(es, t);
    TickPlan(c, es, ms, t, ips);
    NoTickedRun(c, es, ms, t, p, ips);
    ShieldingCallers(c, es, ms, t, ips);
  }

  // ---------------------------------------------------------------------------
  // When ticks can come at any times
  // ---------------------------------------------------------------------------

  lemma {:induction false} SameCallsChain(a: seq<Event>, b: seq<Event>, d: seq<Event>)
    requires SameCalls(a, b) && SameCalls(d, b)
    ensures SameCalls(a, d)
  {
    forall i | 0 <= i < |a| ensures SameCall(a[i], d[i]) {
      assert SameCall(a[i], b[i]) && SameCall(d[i], b[i]);
    }
  }

  /**
   For the callers that cleanups do not affect, every schedule of ticks has a run with
   the same calls and verdicts.
   */
  lemma {:induction false} Rescheduled(c: Config, es: seq<Event>, ms: seq<Store>, plan: seq<Event>,
                                       callers: set<string>)
    requires c.Valid() && Lossless(c, callers)
    requires IsRun(c, es, ms) && Callers(es) <= callers && Reschedules(plan, es)
    ensures HasRun(c, plan)
  {
    var es1, ms1, cut1 := UncleanedRun(c, es, ms, callers);
    SameCallsCallers(es1, WithoutCleanups(es));
    ErasedCallers(es);
    SameCallsChain(WithoutCleanups(plan), WithoutCleanups(es), es1);
    var es2, ms2, cut2 := TickedRun(c, plan, es1, ms1, callers, if plan == [] then 0.0 else plan[|plan| - 1].now);
  }

  /**
   Ticks can be put into every run of given callers without cleanups, at any times,
   with no call answered differently, exactly when the map has no limit, the empty
   string does not call, or the callers are at most one more than the limit.
   */
  lemma {:induction false} TicksCanBeAddedIff(c: Config, callers: set<string>)
    requires c.Valid()
    ensures (forall es: seq<Event>, ms: seq<Store>, plan: seq<Event> ::
               IsRun(c, es, ms) && Callers(es) <= callers && Unswept(es) && Reschedules(plan, es) ==> HasRun(c, plan))
            <==> Lossless(c, callers)
  {
    if Lossless(c, callers) {
      forall es: seq<Event>, ms: seq<Store>, plan: seq<Event>
        | IsRun(c, es, ms) && Callers(es) <= callers && Unswept(es) && Reschedules(plan, es)
        ensures HasRun(c, plan)
      {
        Rescheduled(c, es, ms, plan, callers);
      }
    } else {
      var es, ms, plan := TickCanMatter(c, callers);
    }
  }

  /** For exactly the same callers, any run's ticks can be moved, added and left out at will. */
  lemma {:induction false} TicksCanMoveIff(c: Config, callers: set<string>)
    requires c.Valid()
    ensures (forall es: seq<Event>, ms: seq<Store>, plan: seq<Event> ::
               IsRun(c, es, ms) && Callers(es) <= callers && Reschedules(plan, es) ==> HasRun(c, plan))
            <==> Lossless(c, callers)
  {
    if Lossless(c, callers) {
      forall es: seq<Event>, ms: seq<Store>, plan: seq<Event>
        | IsRun(c, es, ms) && Callers(es) <= callers && Reschedules(plan, es)
        ensures HasRun(c, plan)
      {
        Rescheduled(c, es, ms, plan, callers);
      }
    } else {
      var es, ms, plan := TickCanMatter(c, callers);
    }
  }
}
