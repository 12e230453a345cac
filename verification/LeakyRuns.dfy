/** Runs of the leaky-bucket limiter built to order, and the runs of callers who all have room. */
module LeakyRuns {
  import opened Common
  import opened Timeline
  import opened Traffic
  import opened Crowds
  import opened LeakyBucket

  // ---------------------------------------------------------------------------
  // Newcomers
  // ---------------------------------------------------------------------------

  /** Every bucket was last leaked at time `t`. */
  ghost predicate AllAt(m: Store, t: Time) {
    forall k :: k in m ==> m[k].lastLeak == t
  }

  function Without(m: Store, victim: Option<string>): Store {
    if victim.Some? then m - {victim.value} else m
  }

  lemma {:induction false} FillNext(c: Config, m: Store, t: Time, ip: string) returns (e: Event)
    requires c.Valid() && ip !in m
    requires |m.Keys + {ip}| <= c.maxIPs || (AllAt(m, t) && ("" in m || ip == ""))
    ensures e.Call? && e.ip == ip && e.now == t && e.victim == None
    ensures Step(c, m, e, m[ip := Bucket(1.0, t)])
  {
    assert m[ip := Bucket(1.0, t)].Keys == m.Keys + {ip};
    e := Call(ip, t, Decide(c, 0.0, t), None);
  }

  /** A map with one unit from each of some newcomers. */
  function Filled(m: Store, ips: set<string>, t: Time): Store {
    map k | k in m.Keys + ips :: if k in ips then Bucket(1.0, t) else m[k]
  }

  lemma {:induction false} FilledNext(m0: Store, ips: set<string>, ip: string, t: Time)
    requires ip in ips && ip !in m0
    ensures var m := Filled(m0, ips - {ip}, t);
            && ip !in m && m.Keys + {ip} == m0.Keys + ips
            && m[ip := Bucket(1.0, t)] == Filled(m0, ips, t)
  {
  }

  lemma {:induction false} FillStep(c: Config, m0: Store, t: Time, ips: set<string>, ip: string) returns (e: Event)
    requires c.Valid() && ip in ips && m0.Keys !! ips && (ip == "" ==> ips == {""})
    requires |m0.Keys + ips| <= c.maxIPs || (m0 == map[] && "" in ips)
    ensures e.Call? && e.ip == ip && e.now == t && e.victim == None
    ensures Step(c, Filled(m0, ips - {ip}, t), e, Filled(m0, ips, t))
  {
    FilledNext(m0, ips, ip, t);
    e := FillNext(c, Filled(m0, ips - {ip}, t), t, ip);
  }

  lemma {:induction false} RestHasRoom(c: Config, m0: Store, ips: set<string>, ip: string)
    requires c.Valid() && ip in ips && (ip == "" ==> ips == {""})
    requires |m0.Keys + ips| <= c.maxIPs || (m0 == map[] && "" in ips)
    ensures |m0.Keys + (ips - {ip})| <= c.maxIPs || (m0 == map[] && "" in ips - {ip})
  {
    SubsetSize(m0.Keys + (ips - {ip}), m0.Keys + ips);
    if ip == "" {
      assert m0 == map[] ==> m0.Keys + (ips - {ip}) == {};
    }
  }

  /** The run continues `es0` by calls of some IPs at time `t`, and ends with map `m`. */
  ghost predicate Reaches(c: Config, es0: seq<Event>, es: seq<Event>, ms: seq<Store>, t: Time, ips: set<string>,
                          m: Store) {
    && IsRun(c, es, ms) && ms[|es|] == m && ContinuesAt(es0, es, t, ips)
    && (es != [] ==> es[|es| - 1].now <= t)
  }

  lemma {:induction false} ReachNext(c: Config, es0: seq<Event>, es: seq<Event>, ms: seq<Store>, t: Time,
                                     ips: set<string>, m: Store,
                                     e: Event, m': Store, more: set<string>)
    requires Reaches(c, es0, es, ms, t, ips, m) && Step(c, m, e, m')
    requires e.Call? && e.now == t && ips <= more && e.ip in more
    ensures Reaches(c, es0, es + [e], ms + [m'], t, more, m')
  {
    RunExtend(map[], Steps(c), es, ms, e, m');
  }

  /**
   Every IP of a set can be brought into the map at one instant if there is room, or if
   the map is empty and the empty string is among them.
   */
  lemma {:induction false} FillRun(c: Config, es0: seq<Event>, ms0: seq<Store>, m0: Store, t: Time, ips: set<string>)
    returns (es: seq<Event>, ms: seq<Store>)
    requires c.Valid() && Reaches(c, es0, es0, ms0, t, {}, m0) && m0.Keys !! ips
    requires |m0.Keys + ips| <= c.maxIPs || (m0 == map[] && "" in ips)
    ensures Reaches(c, es0, es, ms, t, ips, Filled(m0, ips, t))
  {
    if ips == {} {
      es, ms := es0, ms0;
      assert Filled(m0, ips, t) == m0;
    } else {
      var ip := NamedFirst(ips);
      RestHasRoom(c, m0, ips, ip);
      var es1, ms1 := FillRun(c, es0, ms0, m0, t, ips - {ip});
      var e := FillStep(c, m0, t, ips, ip);
      ReachNext(c, es0, es1, ms1, t, ips - {ip}, Filled(m0, ips - {ip}, t), e, Filled(m0, ips, t), ips);
      es, ms := es1 + [e], ms1 + [Filled(m0, ips, t)];
    }
  }

  /** On a full map, a newcomer that is evicted by its own call can be admitted at one instant any number of times. */
  lemma {:induction false} SelfEvictRun(c: Config, es0: seq<Event>, ms0: seq<Store>, t: Time, ip: string, k: nat)
    returns (es: seq<Event>, ms: seq<Store>)
    requires c.Valid() && IsRun(c, es0, ms0) && (es0 != [] ==> es0[|es0| - 1].now <= t)
    requires AllAt(ms0[|es0|], t) && |ms0[|es0|]| == c.maxIPs && ip !in ms0[|es0|] && ip != ""
    ensures IsRun(c, es, ms) && ContinuesAt(es0, es, t, {ip}) && (es != [] ==> es[|es| - 1].now <= t)
    ensures ms[|es|] == ms0[|es0|]
    ensures Admissions(es, ip) == Admissions(es0, ip) + Times(t, k)
  {
    if k == 0 {
      es, ms := es0, ms0;
    } else {
      var es1, ms1 := SelfEvictRun(c, es0, ms0, t, ip, k - 1);
      var m := ms1[|es1|];
      UpdateSize(m, ip, Bucket(1.0, t));
      assert Without(m[ip := Bucket(1.0, t)], Some(ip)) == m;
      var e := Call(ip, t, Decide(c, 0.0, t), Some(ip));
      RunExtend(map[], Steps(c), es1, ms1, e, m);
      es, ms := es1 + [e], ms1 + [m];
      assert Admits(e, ip) && es[..|es1|] == es1;
      assert Admissions(es0, ip) + Times(t, k - 1) + [t] == Admissions(es0, ip) + Times(t, k);
    }
  }

  /** With more callers than room, one of them can be admitted at one instant any number of times. */
  lemma {:induction false} CrowdedRun(c: Config, t: Time, ips: set<string>, k: nat)
    returns (es: seq<Event>, ms: seq<Store>, ip: string)
    requires c.Valid() && |ips| > c.maxIPs
    ensures IsRun(c, es, ms) && Callers(es) <= ips
    ensures |InSpan(Admissions(es, ip), t, t)| >= k
  {
    ip := NamedFirst(ips);
    assert ip != "" by {
      assert |{""}| == 1;
    }
    var others := PartOfSize(ips - {ip}, c.maxIPs);
    assert IsRun(c, [], [map[]]);
    var empty: Store := map[];
    assert empty.Keys + others == others;
    assert Reaches(c, [], [], [empty], t, {}, empty);
    var es1, ms1 := FillRun(c, [], [empty], empty, t, others);
    assert ms1[|es1|].Keys == others;
    assert |ms1[|es1|]| == |others|;
    es, ms := SelfEvictRun(c, es1, ms1, t, ip, k);
    InSpanConcat(Admissions(es1, ip), Times(t, k), t, t);
    TimesInSpan(t, k, t, t);
    ContinuedCallers([], es1, t, others);
    ContinuedCallers(es1, es, t, {ip});
  }

  // ---------------------------------------------------------------------------
  // Room
  // ---------------------------------------------------------------------------

  lemma {:induction false} KeysAreCallers(c: Config, es: seq<Event>, ms: seq<Store>)
    requires c.Valid() && IsRun(c, es, ms)
    ensures ms[|es|].Keys <= Callers(es)
  {
    if es != [] {
      var n := |es| - 1;
      RunPrefix(map[], Steps(c), es, ms, n);
      KeysAreCallers(c, es[..n], ms[..n + 1]);
      assert StepAt(Steps(c), es, ms, n);
      CallersSplit(es, n);
    }
  }

  lemma {:induction false} NoVictim(c: Config, m: Store, e: Event, m': Store)
    requires e.Call? && Step(c, m, e, m') && |m.Keys + {e.ip}| <= c.maxIPs
    ensures e.victim == None
  {
    assert m[e.ip := Bucket(Leaked(c, m, e.ip, e.now) + 1.0, e.now)].Keys == m.Keys + {e.ip};
  }

  /** With no more callers than room, nothing is ever evicted. */
  lemma {:induction false} RoomyVictim(c: Config, es: seq<Event>, ms: seq<Store>, i: nat)
    requires c.Valid() && IsRun(c, es, ms) && |Callers(es)| <= c.maxIPs
    requires i < |es| && es[i].Call?
    ensures es[i].victim == None
  {
    RunPrefix(map[], Steps(c), es, ms, i);
    KeysAreCallers(c, es[..i], ms[..i + 1]);
    CallersSplit(es, i);
    SubsetSize(ms[i].Keys + {es[i].ip}, Callers(es));
    assert StepAt(Steps(c), es, ms, i);
    NoVictim(c, ms[i], es[i], ms[i + 1]);
  }

  lemma {:induction false} RoomyStore(c: Config, m: Store, ip: string, now: Time, water: real, allowed: bool)
    requires |m.Keys + {ip}| <= c.maxIPs
    ensures StoreStep(c, m, ip, now, water, allowed,
                      m[ip := Bucket(if allowed then water + 1.0 else water, now)], None)
  {
    assert m[ip := Bucket(water + 1.0, now)].Keys == m.Keys + {ip};
  }

  lemma {:induction false} RoomyStep(c: Config, m: Store, e: Event) returns (m': Store)
    requires c.Valid() && e.Call? && e.victim == None && |m.Keys + {e.ip}| <= c.maxIPs
    requires e.verdict == Decide(c, Leaked(c, m, e.ip, e.now), e.now)
    ensures Step(c, m, e, m')
  {
    var water := Leaked(c, m, e.ip, e.now);
    m' := m[e.ip := Bucket(if e.verdict.allowed then water + 1.0 else water, e.now)];
    RoomyStore(c, m, e.ip, e.now, water, e.verdict.allowed);
  }

  lemma {:induction false} RoomyNext(c: Config, es: seq<Event>, ms: seq<Store>, e: Event) returns (m': Store)
    requires c.Valid() && IsRun(c, es, ms) && (es != [] ==> es[|es| - 1].now <= e.now)
    requires e.Call? ==> e.victim == None && |Callers(es) + {e.ip}| <= c.maxIPs
    requires e.Call? ==> e.verdict == LevelPolicy(c)(LiveHistory(es, e.ip), e.now)
    ensures Step(c, ms[|es|], e, m')
  {
    var m := ms[|es|];
    if e.Call? {
      RunInvariant(c, es, ms, e.ip, e.now);
      LeakedIsLevel(c, m, e.ip, LiveHistory(es, e.ip), e.now, e.now);
      KeysAreCallers(c, es, ms);
      SubsetSize(m.Keys + {e.ip}, Callers(es) + {e.ip});
      m' := RoomyStep(c, m, e);
    } else {
      m' := Swept(m, e.now);
    }
  }

  /** Events in order that follow the level policy, of callers who all have room. */
  ghost predicate RoomyPolicy(c: Config, es: seq<Event>)
    requires c.Valid()
  {
    && Monotone(es) && Follows(LevelPolicy(c), es) && |Callers(es)| <= c.maxIPs
    && forall i :: 0 <= i < |es| && es[i].Call? ==> es[i].victim == None
  }

  lemma {:induction false} RoomyPolicyInit(c: Config, es: seq<Event>)
    requires c.Valid() && RoomyPolicy(c, es) && es != []
    ensures RoomyPolicy(c, es[..|es| - 1])
  {
    var n := |es| - 1;
    FollowsPrefix(LevelPolicy(c), es, n);
    CallersSplit(es, n);
    SubsetSize(Callers(es[..n]), Callers(es));
  }

  lemma {:induction false} RoomyPolicyLast(c: Config, es: seq<Event>)
    requires c.Valid() && RoomyPolicy(c, es) && es != []
    ensures var n := |es| - 1;
            var init, e := es[..n], es[n];
            && (init != [] ==> init[n - 1].now <= e.now)
            && (e.Call? ==> e.victim == None && |Callers(init) + {e.ip}| <= c.maxIPs)
            && (e.Call? ==> e.verdict == LevelPolicy(c)(LiveHistory(init, e.ip), e.now))
  {
    var n := |es| - 1;
    if es[n].Call? {
      CallersSplit(es, n);
      SubsetSize(Callers(es[..n]) + {es[n].ip}, Callers(es));
    }
  }

  lemma {:induction false} PolicyNext(c: Config, es: seq<Event>, ms: seq<Store>) returns (m': Store)
    requires c.Valid() && RoomyPolicy(c, es) && es != [] && IsRun(c, es[..|es| - 1], ms)
    ensures IsRun(c, es, ms + [m'])
  {
    var init, e := es[..|es| - 1], es[|es| - 1];
    RoomyPolicyLast(c, es);
    m' := RoomyNext(c, init, ms, e);
    RunExtend(map[], Steps(c), init, ms, e, m');
    assert es == init + [e];
  }

  /** With room for all, whatever follows the level policy is a run of the limiter. */
  lemma {:induction false} PolicyIsRun(c: Config, es: seq<Event>) returns (ms: seq<Store>)
    requires c.Valid() && RoomyPolicy(c, es)
    ensures IsRun(c, es, ms)
  {
    if es == [] {
      ms := [map[]];
    } else {
      RoomyPolicyInit(c, es);
      ms := PolicyIsRun(c, es[..|es| - 1]);
      var m' := PolicyNext(c, es, ms);
      ms := ms + [m'];
    }
  }

  /** With room for all, the runs of the limiter are exactly what follows the level policy. */
  lemma {:induction false} RoomyRunsIff(c: Config, es: seq<Event>)
    requires c.Valid() && |Callers(es)| <= c.maxIPs
    ensures (exists ms: seq<Store> :: IsRun(c, es, ms)) <==> RoomyPolicy(c, es)
  {
    if ms: seq<Store> :| IsRun(c, es, ms) {
      RefinesLevel(c, es, ms);
      forall i | 0 <= i < |es| && es[i].Call? ensures es[i].victim == None {
        RoomyVictim(c, es, ms, i);
      }
    }
    if RoomyPolicy(c, es) {
      var ms := PolicyIsRun(c, es);
    }
  }
}
