/**
 What the background cleanup changes: for which callers a run without any cleanups
 gives every call the same verdict. Without cleanups the map holds more lists, all of
 them expired and older than every list the cleaned map holds, so an eviction takes
 one of those first and the callers see no difference.
 */
module SlidingCleanup {
  import opened Common
  import opened Timeline
  import opened Traffic
  import opened Crowds
  import opened SlidingGuarantees
  import opened SlidingMemory
  import opened SlidingRuns
  import opened SlidingShadow
  import opened SlidingWindow

  function WithoutCleanups(es: seq<Event>): seq<Event> {
    if es == [] then []
    else WithoutCleanups(es[..|es| - 1]) + if es[|es| - 1].Call? then [es[|es| - 1]] else []
  }

  lemma {:induction false} ErasureExtend(es: seq<Event>, e: Event)
    ensures WithoutCleanups(es + [e]) == if e.Call? then WithoutCleanups(es) + [e] else WithoutCleanups(es)
  {
    assert (es + [e])[..|es|] == es;
  }

  lemma {:induction false} ErasedCallers(es: seq<Event>)
    ensures Callers(WithoutCleanups(es)) == Callers(es)
  {
    if es != [] {
      var init, e := es[..|es| - 1], es[|es| - 1];
      ErasedCallers(init);
      CallersExtend(WithoutCleanups(init), e);
      CallersExtend(init, e);
      assert es == init + [e];
    }
  }

  lemma {:induction false} ErasedClock(es: seq<Event>)
    requires Monotone(es)
    ensures var w := WithoutCleanups(es); w != [] ==> es != [] && w[|w| - 1].now <= es[|es| - 1].now
  {
    if es != [] {
      var n := |es| - 1;
      ErasedClock(es[..n]);
      assert n > 0 ==> es[n - 1].now <= es[n].now;
    }
  }

  // ---------------------------------------------------------------------------
  // Runs
  // ---------------------------------------------------------------------------

  /** Callers for which the uncleaned map is never more than one over its limit. */
  predicate Lossless(c: Config, callers: set<string>) {
    c.maxIPs <= 0 || "" !in callers || |callers| <= c.maxIPs + 1
  }

  lemma {:induction false} NextSize(c: Config, es: seq<Event>, ms: seq<Store>, ip: string, callers: set<string>)
    requires c.Valid() && IsRun(c, es, ms) && Callers(es) <= callers && ip in callers && Lossless(c, callers)
    ensures c.maxIPs <= 0 || |ms[|es|].Keys + {ip}| <= c.maxIPs + 1
  {
    KeysAreCallers(c, es, ms);
    SubsetSize(ms[|es|].Keys + {ip}, callers);
    if c.maxIPs > 0 && "" !in callers {
      NeverAbovePeak(c, es, ms, callers);
      UpdateSize(ms[|es|], ip, []);
      assert ms[|es|][ip := []].Keys == ms[|es|].Keys + {ip};
    }
  }

  /** `es'`, `ms'` is a run without cleanups that shadows the cleaned run. */
  ghost predicate Uncleaned(c: Config, es: seq<Event>, ms: seq<Store>, es': seq<Event>, ms': seq<Store>, cut: Time)
    requires |ms| == |es| + 1
  {
    && IsRun(c, es', ms') && SameCalls(es', WithoutCleanups(es))
    && Shadow(ms[|es|], ms'[|es'|], cut)
  }

  lemma {:induction false} SameClock(as_: seq<Event>, bs: seq<Event>, now: Time)
    requires SameCalls(as_, bs) && (bs != [] ==> bs[|bs| - 1].now <= now)
    ensures as_ != [] ==> as_[|as_| - 1].now <= now
  {
    assert as_ != [] ==> SameCall(as_[|as_| - 1], bs[|as_| - 1]);
  }

  /** Pruning leaves the caller the same list in both maps. */
  lemma {:induction false} SamePruned(c: Config, m: Store, es': seq<Event>, ms': seq<Store>, cut: Time, ip: string,
                                      now: Time)
    requires c.Valid() && IsRun(c, es', ms') && (es' != [] ==> es'[|es'| - 1].now <= now)
    requires Shadow(m, ms'[|es'|], cut) && cut <= now - 2.0 * c.window
    ensures Expire(Stored(m, ip), now - c.window) == Expire(Stored(ms'[|es'|], ip), now - c.window)
  {
    if ip !in m && ip in ms'[|es'|] {
      OldListExpired(c, es', ms', ip, now);
    }
  }

  lemma {:induction false} UncleanedAdmission(c: Config, m: Store, m': Store, e: Event, m2: Store, cut: Time)
    returns (e': Event, m2': Store)
    requires c.Valid() && AllPopulated(m') && e.Call? && e.verdict.allowed
    requires e.verdict == Decide(c, Expire(Stored(m, e.ip), e.now - c.window), e.now)
    requires Trimmed(c, Grown(c, m, e.ip, e.now), m2, e.victim)
    requires Shadow(m, m', cut) && cut <= e.now - c.window
    requires Expire(Stored(m, e.ip), e.now - c.window) == Expire(Stored(m', e.ip), e.now - c.window)
    requires c.maxIPs <= 0 || |m'.Keys + {e.ip}| <= c.maxIPs + 1
    ensures SameCall(e', e) && Step(c, m', e', m2') && Shadow(m2, m2', cut)
  {
    var victim';
    m2', victim' := AdmissionShadow(c, m, m', e.ip, e.now, m2, e.victim, cut);
    e' := e.(victim := victim');
    TrimmedIsStep(c, m', e', m2');
  }

  lemma {:induction false} UncleanedCall(c: Config, m: Store, es': seq<Event>, ms': seq<Store>, cut: Time,
                                         e: Event, m2: Store, callers: set<string>)
    returns (e': Event, m2': Store)
    requires c.Valid() && AllPopulated(m) && e.Call? && Step(c, m, e, m2)
    requires IsRun(c, es', ms') && (es' != [] ==> es'[|es'| - 1].now <= e.now)
    requires Shadow(m, ms'[|es'|], cut) && cut <= e.now - 2.0 * c.window
    requires Callers(es') <= callers && e.ip in callers && Lossless(c, callers)
    ensures SameCall(e', e) && Step(c, ms'[|es'|], e', m2') && Shadow(m2, m2', cut)
  {
    SamePruned(c, m, es', ms', cut, e.ip, e.now);
    if e.verdict.allowed {
      RunPopulated(c, es', ms', |es'|);
      NextSize(c, es', ms', e.ip, callers);
      AdmissionTrims(c, m, e, m2);
      e', m2' := UncleanedAdmission(c, m, ms'[|es'|], e, m2, cut);
    } else {
      e', m2' := DenialShadow(c, m, ms'[|es'|], e, m2, cut);
    }
  }

  lemma {:induction false} ErasedFollows(c: Config, es: seq<Event>, ms: seq<Store>, es': seq<Event>, now: Time)
    requires IsRun(c, es, ms) && SameCalls(es', WithoutCleanups(es)) && (es != [] ==> es[|es| - 1].now <= now)
    ensures es' != [] ==> es'[|es'| - 1].now <= now
    ensures Callers(es') == Callers(es)
  {
    RunMonotone(map[], Steps(c), es, ms);
    ErasedClock(es);
    SameClock(es', WithoutCleanups(es), now);
    SameCallsCallers(es', WithoutCleanups(es));
    ErasedCallers(es);
  }

  lemma {:induction false} UncleanedNext(c: Config, es: seq<Event>, ms: seq<Store>, e: Event, m2: Store,
                                         es1: seq<Event>, ms1: seq<Store>, cut1: Time, callers: set<string>)
    returns (es': seq<Event>, ms': seq<Store>, cut: Time)
    requires c.Valid() && IsRun(c, es, ms) && Step(c, ms[|es|], e, m2)
    requires (es != [] ==> es[|es| - 1].now <= e.now) && cut1 <= e.now - 2.0 * c.window
    requires Uncleaned(c, es, ms, es1, ms1, cut1)
    requires Callers(es) <= callers && (e.Call? ==> e.ip in callers) && Lossless(c, callers)
    ensures IsRun(c, es', ms') && SameCalls(es', WithoutCleanups(es + [e])) && Shadow(m2, ms'[|es'|], cut)
    ensures cut <= e.now - 2.0 * c.window
  {
    ErasureExtend(es, e);
    RunPopulated(c, es, ms, |es|);
    if e.Call? {
      ErasedFollows(c, es, ms, es1, e.now);
      var e', m2' := UncleanedCall(c, ms[|es|], es1, ms1, cut1, e, m2, callers);
      RunExtend(map[], Steps(c), es1, ms1, e', m2');
      es', ms', cut := es1 + [e'], ms1 + [m2'], cut1;
    } else {
      es', ms', cut := es1, ms1, e.now - 2.0 * c.window;
    }
  }

  lemma {:induction false} LastStep(c: Config, es: seq<Event>, ms: seq<Store>)
    requires IsRun(c, es, ms) && es != []
    ensures var n := |es| - 1;
            && es == es[..n] + [es[n]] && IsRun(c, es[..n], ms[..n + 1])
            && Step(c, ms[..n + 1][n], es[n], ms[n + 1]) && (n > 0 ==> es[..n][n - 1].now <= es[n].now)
            && Callers(es[..n]) <= Callers(es) && (es[n].Call? ==> es[n].ip in Callers(es))
  {
    var n := |es| - 1;
    RunPrefix(map[], Steps(c), es, ms, n);
    assert StepAt(Steps(c), es, ms, n);
    CallersSplit(es, n);
  }

  /** The run without cleanups that goes with a run. */
  lemma {:induction false} UncleanedRun(c: Config, es: seq<Event>, ms: seq<Store>, callers: set<string>)
    returns (es': seq<Event>, ms': seq<Store>, cut: Time)
    requires c.Valid() && IsRun(c, es, ms) && Callers(es) <= callers && Lossless(c, callers)
    ensures Uncleaned(c, es, ms, es', ms', cut)
    ensures es != [] ==> cut <= es[|es| - 1].now - 2.0 * c.window
  {
    if es == [] {
      es', ms', cut := [], ms, 0.0;
    } else {
      var n := |es| - 1;
      var init, ms0, e := es[..n], ms[..n + 1], es[n];
      LastStep(c, es, ms);
      var es1, ms1, cut1 := UncleanedRun(c, init, ms0, callers);
      if n == 0 {
        cut1 := e.now - 2.0 * c.window;
      }
      es', ms', cut := UncleanedNext(c, init, ms0, e, ms[n + 1], es1, ms1, cut1, callers);
    }
  }

  /** Some run without cleanups makes the same calls and gives them the same verdicts. */
  ghost predicate HasUncleaned(c: Config, es: seq<Event>) {
    exists es': seq<Event>, ms': seq<Store> :: IsRun(c, es', ms') && SameCalls(es', WithoutCleanups(es))
  }

  // ---------------------------------------------------------------------------
  // Where cleanups make a difference
  // ---------------------------------------------------------------------------

  /** The empty string's list is the oldest of all, and so keeps every other list in the map. */
  ghost predicate Shielded(m: Store, t: Time) {
    && "" in m && m[""] == [0.0]
    && forall k :: k in m && k != "" ==> m[k] != [] && m[k][0] == t
  }

  lemma {:induction false} ShieldHolds(c: Config, m: Store, e: Event, m': Store, t: Time)
    requires c.Valid() && Shielded(m, t) && t > 0.0
    requires e.Call? && e.ip != "" && e.now == t && Step(c, m, e, m')
    ensures Shielded(m', t) && e.victim == None
  {
    assert AllPopulated(m);
    EvictionOutcome(c, m, e, m');
    CallOutcome(c, m, e, m', Expire(Stored(m, e.ip), t - c.window));
    var m1 := Grown(c, m, e.ip, t);
    assert Expire(Stored(m, e.ip), t - c.window) == Stored(m, e.ip);
    assert Shielded(m1, t);
    assert Front(m1[""]) == 0.0;
  }

  lemma {:induction false} FirstShield(c: Config, e: Event, m': Store)
    requires c.Valid() && e.Call? && e.ip == "" && e.now == 0.0 && Step(c, map[], e, m')
    ensures m' == map["" := [0.0]] && e.victim == None
  {
    var empty: Store, one: Store := map[], map["" := [0.0]];
    assert Expire(Stored(empty, ""), 0.0 - c.window) == [] && [] + [0.0] == [0.0];
    assert empty["" := [0.0]] == one && one.Keys == {""};
  }

  /** After one call by the empty string, calls of others at one later instant evict nothing. */
  lemma {:induction false} ShieldedRun(c: Config, es: seq<Event>, ms: seq<Store>, t: Time)
    requires c.Valid() && IsRun(c, es, ms) && t > 0.0 && es != []
    requires es[0].Call? && es[0].ip == "" && es[0].now == 0.0
    requires forall i :: 0 < i < |es| ==> es[i].Call? && es[i].ip != "" && es[i].now == t
    ensures Shielded(ms[|es|], t)
    ensures forall i, ip :: 0 <= i < |es| ==> !Evicts(es[i], ip)
  {
    var n := |es| - 1;
    assert StepAt(Steps(c), es, ms, n);
    if n == 0 {
      FirstShield(c, es[0], ms[1]);
    } else {
      RunPrefix(map[], Steps(c), es, ms, n);
      ShieldedRun(c, es[..n], ms[..n + 1], t);
      ShieldHolds(c, ms[n], es[n], ms[n + 1], t);
      forall i, ip | 0 <= i < |es| ensures !Evicts(es[i], ip) {
        assert i < n ==> !Evicts(es[..n][i], ip);
      }
    }
  }

  lemma {:induction false} ErasedPrefix(before: seq<Event>, es: seq<Event>)
    requires before <= es && forall i :: |before| <= i < |es| ==> es[i].Call?
    ensures WithoutCleanups(es) == WithoutCleanups(before) + es[|before|..]
  {
    if es == before {
      assert es[|before|..] == [];
    } else {
      var n := |es| - 1;
      ErasedPrefix(before, es[..n]);
      assert es[|before|..] == es[..n][|before|..] + [es[n]];
    }
  }

  lemma {:induction false} ErasedAdmissions(es: seq<Event>, ip: string)
    ensures Admissions(WithoutCleanups(es), ip) == Admissions(es, ip)
  {
    if es != [] {
      var w, e := WithoutCleanups(es[..|es| - 1]), es[|es| - 1];
      ErasedAdmissions(es[..|es| - 1], ip);
      assert w + [] == w && (w + [e])[..|w|] == w;
    }
  }

  /** The empty string calls, and a cleanup drops its list. */
  lemma {:induction false} DroppedShield(c: Config, t: Time) returns (es: seq<Event>, ms: seq<Store>)
    requires c.Valid() && c.maxIPs > 0 && t > 2.0 * c.window
    ensures IsRun(c, es, ms) && |es| == 2 && ms[2] == map[]
    ensures es[0].Call? && es[0].ip == "" && es[0].now == 0.0 && es[1] == Cleanup(t)
  {
    var empty: Store, one: Store := map[], map["" := [0.0]];
    NewcomerStep(c, empty, 0.0, "", None);
    assert empty["" := [0.0]] == one && one.Keys == {""};
    es, ms := [Call("", 0.0, Decide(c, [], 0.0), None), Cleanup(t)], [empty, one, empty];
    assert Swept(c, one, t) == empty;
    assert StepAt(Steps(c), es, ms, 0);
    assert StepAt(Steps(c), es, ms, 1);
  }

  lemma {:induction false} ShieldedAgain(c: Config, es: seq<Event>, es': seq<Event>, ms': seq<Store>, t: Time,
                                         ip: string)
    requires c.Valid() && IsRun(c, es', ms') && t > 0.0 && |es| >= 2
    requires es[0].Call? && es[0].ip == "" && es[0].now == 0.0
    requires forall i :: 2 <= i < |es| ==> es[i].Call? && es[i].ip != "" && es[i].now == t
    requires WithoutCleanups(es) == [es[0]] + es[2..] && SameCalls(es', [es[0]] + es[2..])
    ensures |InSpan(Admissions(es, ip), t, t + c.window)| <= c.limit
  {
    var w := [es[0]] + es[2..];
    forall i | 0 < i < |es'| ensures es'[i].Call? && es'[i].ip != "" && es'[i].now == t {
      assert SameCall(es'[i], w[i]) && w[i] == es[i + 1];
    }
    assert SameCall(es'[0], w[0]);
    ShieldedRun(c, es', ms', t);
    SameCallsAgree(es', w, ip);
    ErasedAdmissions(es, ip);
    assert es'[0..|es'|] == es';
    WindowBound(c, es', ms', 0, |es'|, ip, t);
  }

  lemma {:induction false} ErasedShield(es0: seq<Event>, es: seq<Event>)
    requires |es0| == 2 && es0[0].Call? && es0[1].Cleanup? && es0 <= es && forall i :: 2 <= i < |es| ==> es[i].Call?
    ensures WithoutCleanups(es) == [es[0]] + es[2..]
    ensures Callers(es0) == {es0[0].ip}
  {
    ErasedPrefix(es0, es);
    assert WithoutCleanups(es0) == [es0[0]] by {
      assert es0 == [es0[0]] + [es0[1]];
      ErasureExtend([es0[0]], es0[1]);
      ErasureExtend([], es0[0]);
      assert [] + [es0[0]] == [es0[0]];
    }
    assert es0 == [es0[0], es0[1]] && es0[0] in es0;
  }

  /** With the empty string and more other callers than room, a cleanup can change a verdict. */
  lemma {:induction false} CleanupCanMatter(c: Config, callers: set<string>) returns (es: seq<Event>, ms: seq<Store>)
    requires c.Valid() && !Lossless(c, callers)
    ensures IsRun(c, es, ms) && Callers(es) <= callers && !HasUncleaned(c, es)
  {
    var t := 2.0 * c.window + 1.0;
    var es0, ms0 := DroppedShield(c, t);
    var named, ip := callers - {""}, "";
    es, ms, ip := CrowdedRun(c, es0, ms0, t, named, c.limit + 1);
    ContinuedCallers(es0, es, t, named);
    ErasedShield(es0, es);
    NoUncleaned(c, es, t, ip);
  }

  lemma {:induction false} NoUncleaned(c: Config, es: seq<Event>, t: Time, ip: string)
    requires c.Valid() && t > 0.0 && |es| >= 2
    requires es[0].Call? && es[0].ip == "" && es[0].now == 0.0
    requires forall i :: 2 <= i < |es| ==> es[i].Call? && es[i].ip != "" && es[i].now == t
    requires WithoutCleanups(es) == [es[0]] + es[2..]
    ensures HasUncleaned(c, es) ==> |InSpan(Admissions(es, ip), t, t + c.window)| <= c.limit
  {
    if HasUncleaned(c, es) {
      var es': seq<Event>, ms': seq<Store> :| IsRun(c, es', ms') && SameCalls(es', WithoutCleanups(es));
      ShieldedAgain(c, es, es', ms', t, ip);
    }
  }

  /**
   A run without cleanups gives the same verdicts for every run of the given callers
   exactly when the map has no limit, the empty string does not call, or the callers
   are at most one more than the limit.
   */
  lemma {:induction false} CleanupIsLossless(c: Config, callers: set<string>)
    requires c.Valid()
    ensures (forall es: seq<Event>, ms: seq<Store> :: IsRun(c, es, ms) && Callers(es) <= callers ==>
               HasUncleaned(c, es))
            <==> Lossless(c, callers)
  {
    if Lossless(c, callers) {
      forall es: seq<Event>, ms: seq<Store> | IsRun(c, es, ms) && Callers(es) <= callers ensures HasUncleaned(c, es) {
        var es', ms', cut := UncleanedRun(c, es, ms, callers);
      }
    } else {
      var es, ms := CleanupCanMatter(c, callers);
    }
  }
}
