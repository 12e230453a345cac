/** Runs of the sliding-window limiter built to order: filling the map, and calls that evict themselves. */
module SlidingRuns {
  import opened Common
  import opened Timeline
  import opened Traffic
  import opened Crowds
  import opened SlidingWindow

  /** Every list starts at time `t`. */
  ghost predicate AllFrom(m: Store, t: Time) {
    forall k :: k in m ==> m[k] != [] && m[k][0] == t
  }

  /** Who a newcomer's call may evict from a map whose lists all start at the same time. */
  ghost predicate MayGo(c: Config, m1: Store, victim: Option<string>) {
    if c.maxIPs > 0 && |m1| > c.maxIPs then
      match victim
      case Some(k) => k != "" && k in m1
      case None => "" in m1
    else victim == None
  }

  function Without(m: Store, victim: Option<string>): Store {
    if victim.Some? then m - {victim.value} else m
  }

  /** The first call of an IP is admitted, and may evict any one entry as old as all others. */
  lemma {:induction false} NewcomerStep(c: Config, m: Store, t: Time, ip: string, victim: Option<string>)
    requires c.Valid() && AllFrom(m, t) && ip !in m && MayGo(c, m[ip := [t]], victim)
    ensures Step(c, m, Call(ip, t, Decide(c, [], t), victim), Without(m[ip := [t]], victim))
    ensures AllFrom(Without(m[ip := [t]], victim), t)
  {
    var m1 := m[ip := [t]];
    assert Expire(Stored(m, ip), t - c.window) == [] && [] + [t] == [t];
    assert Populated(m1) == m1 by {
      assert Populated(m1).Keys == m1.Keys;
    }
  }

  lemma {:induction false} FillNext(c: Config, m: Store, t: Time, ip: string) returns (e: Event)
    requires c.Valid() && AllFrom(m, t) && ip !in m
    requires c.maxIPs <= 0 || |m.Keys + {ip}| <= c.maxIPs || "" in m
    ensures e.Call? && e.ip == ip && e.now == t
    ensures Step(c, m, e, m[ip := [t]]) && AllFrom(m[ip := [t]], t)
  {
    assert m[ip := [t]].Keys == m.Keys + {ip};
    NewcomerStep(c, m, t, ip, None);
    e := Call(ip, t, Decide(c, [], t), None);
  }

  /**
   From an empty map, every IP of a set can be brought into it at one instant if there
   is room or the empty string is among them.
   */
  lemma {:induction false} FillRun(c: Config, es0: seq<Event>, ms0: seq<Store>, t: Time, ips: set<string>)
    returns (es: seq<Event>, ms: seq<Store>)
    requires c.Valid() && IsRun(c, es0, ms0) && ms0[|es0|] == map[]
    requires es0 != [] ==> es0[|es0| - 1].now <= t
    requires c.maxIPs <= 0 || |ips| <= c.maxIPs || "" in ips
    ensures IsRun(c, es, ms) && ContinuesAt(es0, es, t, ips) && (es != [] ==> es[|es| - 1].now <= t)
    ensures ms[|es|].Keys == ips && AllFrom(ms[|es|], t)
  {
    if ips == {} {
      es, ms := es0, ms0;
    } else {
      var ip := NamedFirst(ips);
      var es1, ms1 := FillRun(c, es0, ms0, t, ips - {ip});
      assert (ips - {ip}) + {ip} == ips;
      if ip == "" {
        assert |ips| == 1;
      }
      var e := FillNext(c, ms1[|es1|], t, ip);
      RunExtend(map[], Steps(c), es1, ms1, e, ms1[|es1|][ip := [t]]);
      es, ms := es1 + [e], ms1 + [ms1[|es1|][ip := [t]]];
    }
  }

  /** On a full map, a newcomer that is evicted by its own call can be admitted at one instant any number of times. */
  lemma {:induction false} SelfEvictRun(c: Config, es0: seq<Event>, ms0: seq<Store>, t: Time, ip: string, k: nat)
    returns (es: seq<Event>, ms: seq<Store>)
    requires c.Valid() && c.maxIPs > 0 && IsRun(c, es0, ms0) && (es0 != [] ==> es0[|es0| - 1].now <= t)
    requires AllFrom(ms0[|es0|], t) && |ms0[|es0|]| == c.maxIPs && ip !in ms0[|es0|] && ip != ""
    ensures IsRun(c, es, ms) && ContinuesAt(es0, es, t, {ip}) && (es != [] ==> es[|es| - 1].now <= t)
    ensures ms[|es|] == ms0[|es0|]
    ensures Admissions(es, ip) == Admissions(es0, ip) + Times(t, k)
  {
    if k == 0 {
      es, ms := es0, ms0;
    } else {
      var es1, ms1 := SelfEvictRun(c, es0, ms0, t, ip, k - 1);
      var m := ms1[|es1|];
      UpdateSize(m, ip, [t]);
      NewcomerStep(c, m, t, ip, Some(ip));
      assert Without(m[ip := [t]], Some(ip)) == m;
      var e := Call(ip, t, Decide(c, [], t), Some(ip));
      RunExtend(map[], Steps(c), es1, ms1, e, m);
      es, ms := es1 + [e], ms1 + [m];
      assert Admits(e, ip) && es[..|es1|] == es1;
      assert Admissions(es0, ip) + Times(t, k - 1) + [t] == Admissions(es0, ip) + Times(t, k);
    }
  }

  /** With more callers than room, one of them can be admitted at one instant any number of times. */
  lemma {:induction false} CrowdedRun(c: Config, es0: seq<Event>, ms0: seq<Store>, t: Time, ips: set<string>, k: nat)
    returns (es: seq<Event>, ms: seq<Store>, ip: string)
    requires c.Valid() && c.maxIPs > 0 && |ips| > c.maxIPs
    requires IsRun(c, es0, ms0) && ms0[|es0|] == map[] && (es0 != [] ==> es0[|es0| - 1].now <= t)
    ensures IsRun(c, es, ms) && ContinuesAt(es0, es, t, ips) && ip in ips && ip != ""
    ensures |InSpan(Admissions(es, ip), t, t + c.window)| >= k
  {
    ip := NamedFirst(ips);
    assert ip != "" by {
      assert |{""}| == 1;
    }
    var others := PartOfSize(ips - {ip}, c.maxIPs);
    var es1, ms1 := FillRun(c, es0, ms0, t, others);
    assert |ms1[|es1|]| == |others|;
    es, ms := SelfEvictRun(c, es1, ms1, t, ip, k);
    InSpanConcat(Admissions(es1, ip), Times(t, k), t, t + c.window);
    TimesInSpan(t, k, t, t + c.window);
    forall i | |es0| <= i < |es| ensures es[i].Call? && es[i].now == t && es[i].ip in ips {
      if i < |es1| {
        assert es[i] == es1[i];
      }
    }
  }

  // ---------------------------------------------------------------------------
  // Room
  // ---------------------------------------------------------------------------

  lemma {:induction false} KeysAreCallers(c: Config, es: seq<Event>, ms: seq<Store>)
    requires c.Valid() && IsRun(c, es, ms)
    ensures ms[|es|].Keys <= Callers(es)
  {
    if es != [] {
      var n := |es| - 1;
      RunPrefix(map[], Steps(c), es, ms, n);
      KeysAreCallers(c, es[..n], ms[..n + 1]);
      assert StepAt(Steps(c), es, ms, n);
      CallersSplit(es, n);
    }
  }

  lemma {:induction false} NoVictim(c: Config, m: Store, e: Event, m': Store)
    requires c.Valid() && e.Call? && Step(c, m, e, m')
    requires c.maxIPs <= 0 || |m[e.ip := Expire(Stored(m, e.ip), e.now - c.window) + [e.now]]| <= c.maxIPs
    ensures e.victim == None
  {
  }

  /** With no more callers than room, nothing is ever evicted. */
  lemma {:induction false} RoomyVictim(c: Config, es: seq<Event>, ms: seq<Store>, i: nat)
    requires c.Valid() && IsRun(c, es, ms) && (c.maxIPs <= 0 || |Callers(es)| <= c.maxIPs)
    requires i < |es| && es[i].Call?
    ensures es[i].victim == None
  {
    RunPrefix(map[], Steps(c), es, ms, i);
    KeysAreCallers(c, es[..i], ms[..i + 1]);
    CallersSplit(es, i);
    var l := Expire(Stored(ms[i], es[i].ip), es[i].now - c.window);
    SubsetSize(ms[i][es[i].ip := l + [es[i].now]].Keys, Callers(es));
    assert StepAt(Steps(c), es, ms, i);
    NoVictim(c, ms[i], es[i], ms[i + 1]);
  }
}
