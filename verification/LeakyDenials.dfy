/**
 What a denied call changes in the leaky-bucket limiter. It leaks the caller's bucket
 and so makes it look recently used; that shows exactly when somebody is evicted.
 */
module LeakyDenials {
  import opened Common
  import opened Traffic
  import opened Crowds
  import opened LeakyBucket
  import opened LeakyRuns

  predicate Denied(es: seq<Event>, i: nat)
    requires i < |es|
  {
    es[i].Call? && !es[i].verdict.allowed
  }

  /** Some run is made of the same events, with the same verdicts. */
  ghost predicate HasRun(c: Config, es: seq<Event>) {
    exists es': seq<Event>, ms': seq<Store> :: IsRun(c, es', ms') && SameEvents(es', es)
  }

  // ---------------------------------------------------------------------------
  // With room
  // ---------------------------------------------------------------------------

  /** A denied call leaves every live history as it was. */
  lemma {:induction false} DroppedHistory(es: seq<Event>, i: nat, j: nat, ip: string)
    requires i < |es| && Denied(es, i) && es[i].victim == None && i <= j < |es|
    ensures LiveHistory(Dropped(es, i)[..j], ip) == LiveHistory(es[..j + 1], ip)
  {
    var d := Dropped(es, i);
    if i == j {
      assert d[..j] == es[..j];
      assert es[..j + 1][..j] == es[..j];
    } else {
      DroppedHistory(es, i, j - 1, ip);
      assert d[..j][..j - 1] == d[..j - 1] && d[..j][j - 1] == es[j];
      assert es[..j + 1][..j] == es[..j] && es[..j + 1][j] == es[j];
    }
  }

  lemma {:induction false} DroppedFollows(p: Policy, es: seq<Event>, i: nat)
    requires Follows(p, es) && i < |es| && Denied(es, i) && es[i].victim == None
    ensures Follows(p, Dropped(es, i))
  {
    var d := Dropped(es, i);
    forall j | 0 <= j < |d| && d[j].Call? ensures d[j].verdict == p(LiveHistory(d[..j], d[j].ip), d[j].now) {
      if j < i {
        assert d[j] == es[j] && d[..j] == es[..j];
      } else {
        assert d[j] == es[j + 1];
        DroppedHistory(es, i, j, d[j].ip);
      }
    }
  }

  lemma {:induction false} DroppedRoomy(c: Config, es: seq<Event>, ms: seq<Store>, i: nat)
    requires c.Valid() && IsRun(c, es, ms) && |Callers(es)| <= c.maxIPs && i < |es| && Denied(es, i)
    ensures RoomyPolicy(c, Dropped(es, i))
  {
    var d := Dropped(es, i);
    RefinesLevel(c, es, ms);
    forall j | 0 <= j < |es| && es[j].Call? ensures es[j].victim == None {
      RoomyVictim(c, es, ms, j);
    }
    DroppedFollows(LevelPolicy(c), es, i);
    assert forall e :: e in d ==> e in es;
    SubsetSize(Callers(d), Callers(es));
  }

  /** With room for all, dropping a denied call from a run leaves a run with every other verdict equal. */
  lemma {:induction false} DenialIsErasable(c: Config, es: seq<Event>, ms: seq<Store>, i: nat)
    requires c.Valid() && IsRun(c, es, ms) && |Callers(es)| <= c.maxIPs && i < |es| && Denied(es, i)
    ensures exists ms': seq<Store> :: IsRun(c, Dropped(es, i), ms')
  {
    DroppedRoomy(c, es, ms, i);
    var ms' := PolicyIsRun(c, Dropped(es, i));
  }

  // ---------------------------------------------------------------------------
  // Without room: the denied call decides who is evicted
  // ---------------------------------------------------------------------------

  /** `ip` calls `k` times at time 0. */
  lemma {:induction false} PourRun(c: Config, ip: string, k: nat) returns (es: seq<Event>, ms: seq<Store>)
    requires c.Valid() && 1 <= k && (k - 1) as real < c.capacity
    ensures Reaches(c, [], es, ms, 0.0, {ip}, map[ip := Bucket(k as real, 0.0)])
  {
    var empty: Store := map[];
    if k == 1 {
      assert Reaches(c, [], [], [empty], 0.0, {}, empty);
      var e := FillNext(c, empty, 0.0, ip);
      assert empty[ip := Bucket(1.0, 0.0)] == map[ip := Bucket(1.0, 0.0)];
      ReachNext(c, [], [], [empty], 0.0, {}, empty, e, map[ip := Bucket(1.0, 0.0)], {ip});
      es, ms := [] + [e], [empty] + [map[ip := Bucket(1.0, 0.0)]];
    } else {
      var es1, ms1 := PourRun(c, ip, k - 1);
      var e := PourNext(c, ip, (k - 1) as real, 0.0, 0.0);
      ReachNext(c, [], es1, ms1, 0.0, {ip}, map[ip := Bucket((k - 1) as real, 0.0)], e,
                map[ip := Bucket(k as real, 0.0)], {ip});
      es, ms := es1 + [e], ms1 + [map[ip := Bucket(k as real, 0.0)]];
    }
  }

  /** One more call of the only caller is admitted below capacity. */
  lemma {:induction false} PourNext(c: Config, ip: string, water: real, from: Time, now: Time) returns (e: Event)
    requires c.Valid() && Drain(c.rate, water, from, now) < c.capacity
    ensures e.Call? && e.ip == ip && e.now == now
    ensures Step(c, map[ip := Bucket(water, from)], e, map[ip := Bucket(Drain(c.rate, water, from, now) + 1.0, now)])
    ensures now == from && water >= 0.0 ==> Drain(c.rate, water, from, now) == water
  {
    var m: Store := map[ip := Bucket(water, from)];
    var w := Drain(c.rate, water, from, now);
    var m1: Store := map[ip := Bucket(w + 1.0, now)];
    assert m[ip := Bucket(w + 1.0, now)] == m1 && m1.Keys == {ip};
    e := Call(ip, now, Decide(c, w, now), None);
  }

  /** `ip` alone calls until its bucket is above capacity. */
  lemma {:induction false} OverfullRun(c: Config, ip: string)
    returns (es: seq<Event>, ms: seq<Store>, water: real, at: Time)
    requires c.Valid()
    ensures IsRun(c, es, ms) && ms[|es|] == map[ip := Bucket(water, at)] && water > c.capacity
    ensures Callers(es) <= {ip} && (es != [] ==> es[|es| - 1].now <= at)
  {
    var k := if c.capacity.Floor as real == c.capacity then c.capacity.Floor else c.capacity.Floor + 1;
    es, ms := PourRun(c, ip, k);
    water, at := k as real, 0.0;
    if water == c.capacity {
      var es1, ms1 := es, ms;
      at := 0.5 / c.rate;
      assert at > 0.0;
      var e := PourNext(c, ip, water, 0.0, at);
      water := Drain(c.rate, water, 0.0, at) + 1.0;
      RunExtend(map[], Steps(c), es1, ms1, e, map[ip := Bucket(water, at)]);
      es, ms := es1 + [e], ms1 + [map[ip := Bucket(water, at)]];
      CallersExtend(es1, e);
    }
  }

  ghost predicate NoVictims(es: seq<Event>) {
    forall i :: 0 <= i < |es| && es[i].Call? ==> es[i].victim == None
  }

  /** Without evictions the calls and verdicts determine the run. */
  lemma {:induction false} RunDetermined(c: Config, as_: seq<Event>, ms1: seq<Store>, bs: seq<Event>, ms2: seq<Store>)
    requires IsRun(c, as_, ms1) && IsRun(c, bs, ms2) && SameEvents(as_, bs) && NoVictims(as_) && NoVictims(bs)
    ensures ms1[|as_|] == ms2[|bs|]
  {
    if as_ != [] {
      var n := |as_| - 1;
      RunPrefix(map[], Steps(c), as_, ms1, n);
      RunPrefix(map[], Steps(c), bs, ms2, n);
      RunDetermined(c, as_[..n], ms1[..n + 1], bs[..n], ms2[..n + 1]);
      assert StepAt(Steps(c), as_, ms1, n);
      assert StepAt(Steps(c), bs, ms2, n);
      assert SameEvent(as_[n], bs[n]);
    }
  }

  lemma {:induction false} SameEventsCallers(as_: seq<Event>, bs: seq<Event>)
    requires SameEvents(as_, bs)
    ensures Callers(as_) <= Callers(bs)
  {
    forall i | 0 <= i < |as_| && as_[i].Call? ensures as_[i].ip in Callers(bs) {
      assert SameEvent(as_[i], bs[i]);
      assert bs[i] in bs;
    }
  }

  lemma {:induction false} RoomyNoVictims(c: Config, es: seq<Event>, ms: seq<Store>)
    requires c.Valid() && IsRun(c, es, ms) && |Callers(es)| <= c.maxIPs
    ensures NoVictims(es)
  {
    forall i | 0 <= i < |es| && es[i].Call? ensures es[i].victim == None {
      RoomyVictim(c, es, ms, i);
    }
  }

  /** A full map in which one bucket was leaked before all others. */
  ghost predicate Laggard(c: Config, m: Store, ip: string, t: Time) {
    && |m| == c.maxIPs && ip in m && ip != "" && m[ip].lastLeak < t
    && forall k :: k in m && k != ip ==> m[k].lastLeak == t
  }

  /** A newcomer's call evicts that one. */
  lemma {:induction false} LaggardGoes(c: Config, m: Store, ip: string, e: Event, m': Store)
    requires c.Valid() && e.Call? && e.ip !in m && Laggard(c, m, ip, e.now) && Step(c, m, e, m')
    ensures ip !in m'
  {
    assert Leaked(c, m, e.ip, e.now) == 0.0;
    var m1 := m[e.ip := Bucket(0.0 + 1.0, e.now)];
    UpdateSize(m, e.ip, Bucket(0.0 + 1.0, e.now));
    assert m1[ip].lastLeak < e.now;
  }

  /** The laggard is evicted by the next newcomer, and so admitted when it calls again. */
  lemma {:induction false} LaggardReturns(c: Config, base: seq<Event>, msb: seq<Store>, ip: string, z: Event, x: Event,
                                        es': seq<Event>, ms': seq<Store>)
    requires c.Valid() && IsRun(c, base, msb) && |Callers(base)| <= c.maxIPs
    requires z.Call? && z.ip !in msb[|base|] && z.ip != ip && Laggard(c, msb[|base|], ip, z.now)
    requires x.Call? && x.ip == ip && IsRun(c, es', ms') && SameEvents(es', base + [z] + [x])
    ensures x.verdict.allowed
  {
    var n, all := |base|, base + [z] + [x];
    var base', msb' := es'[..n], ms'[..n + 1];
    RunPrefix(map[], Steps(c), es', ms', n);
    assert SameEvents(base', base) by {
      forall i | 0 <= i < n ensures SameEvent(base'[i], base[i]) {
        assert SameEvent(es'[i], all[i]);
      }
    }
    assert ms'[n] == msb[n] by {
      SameEventsCallers(base', base);
      SubsetSize(Callers(base'), Callers(base));
      RoomyNoVictims(c, base', msb');
      RoomyNoVictims(c, base, msb);
      RunDetermined(c, base', msb', base, msb);
    }
    assert SameEvent(es'[n], all[n]) && SameEvent(es'[n + 1], all[n + 1]);
    assert StepAt(Steps(c), es', ms', n);
    LaggardGoes(c, ms'[n], ip, es'[n], ms'[n + 1]);
    assert StepAt(Steps(c), es', ms', n + 1);
  }

  /** Whoever is not evicted: the newcomer goes itself, or the empty string stays. */
  function Spare(ip: string): Option<string> {
    if ip == "" then None else Some(ip)
  }

  /** A full bucket that was just leaked, in a full map, outlives the call of a newcomer. */
  lemma {:induction false} FreshStays(c: Config, m: Store, ip: string, z: string, t: Time)
    requires c.Valid() && |m| == c.maxIPs && AllAt(m, t) && ip in m && z !in m && ip != z
    ensures var e := Call(z, t, Decide(c, 0.0, t), Spare(z));
            var m' := Without(m[z := Bucket(1.0, t)], Spare(z));
            Step(c, m, e, m') && ip in m' && m'[ip] == m[ip]
  {
    UpdateSize(m, z, Bucket(1.0, t));
  }

  lemma {:induction false} LaggardMap(c: Config, ip: string, water: real, at: Time, rest: set<string>, t: Time)
    requires c.Valid() && ip != "" && ip !in rest && |{ip} + rest| == c.maxIPs && at < t
    requires Drain(c.rate, water, at, t) == c.capacity
    ensures var m := Filled(map[ip := Bucket(water, at)], rest, t);
            m.Keys == {ip} + rest && Laggard(c, m, ip, t) && Leaked(c, m, ip, t) == c.capacity
  {
    var m := Filled(map[ip := Bucket(water, at)], rest, t);
    assert m.Keys == {ip} + rest;
    assert |m| == |m.Keys|;
  }

  /** One caller with a name, one other, and as many more as fill the map with the first. */
  lemma {:induction false} Crowd(c: Config, callers: set<string>) returns (ip: string, z: string, rest: set<string>)
    requires c.Valid() && |callers| > c.maxIPs
    ensures ip in callers && ip != "" && z in callers && z != ip && rest <= callers
    ensures ip !in rest && z !in rest && |{ip} + rest| == c.maxIPs
  {
    ip := NamedFirst(callers);
    assert ip != "" by {
      assert |{""}| == 1;
    }
    var others := PartOfSize(callers - {ip}, c.maxIPs);
    z :| z in others;
    rest := others - {z};
  }

  /** A full map whose one older bucket is full at time `t`, and a newcomer. */
  lemma {:induction false} LaggardRun(c: Config, callers: set<string>)
    returns (es: seq<Event>, ms: seq<Store>, ip: string, z: string, t: Time)
    requires c.Valid() && |callers| > c.maxIPs
    ensures IsRun(c, es, ms) && |Callers(es)| <= c.maxIPs && Callers(es) <= callers
    ensures ip in callers && z in callers && z !in ms[|es|] && z != ip
    ensures Laggard(c, ms[|es|], ip, t) && Leaked(c, ms[|es|], ip, t) == c.capacity
    ensures es != [] ==> es[|es| - 1].now <= t
  {
    var rest;
    ip, z, rest := Crowd(c, callers);
    var es1, ms1, water, at := OverfullRun(c, ip);
    t := at + (water - c.capacity) / c.rate;
    LaggardMap(c, ip, water, at, rest, t);
    var m0: Store := map[ip := Bucket(water, at)];
    assert m0.Keys == {ip};
    assert Reaches(c, es1, es1, ms1, t, {}, m0);
    es, ms := FillRun(c, es1, ms1, m0, t, rest);
    ContinuedCallers(es1, es, t, rest);
    SubsetSize(Callers(es), {ip} + rest);
  }

  lemma {:induction false} AlwaysAdmitted(c: Config, base: seq<Event>, msb: seq<Store>, ip: string, z: Event, x: Event)
    requires c.Valid() && IsRun(c, base, msb) && |Callers(base)| <= c.maxIPs
    requires z.Call? && z.ip !in msb[|base|] && z.ip != ip && Laggard(c, msb[|base|], ip, z.now)
    requires x.Call? && x.ip == ip
    ensures HasRun(c, base + [z] + [x]) ==> x.verdict.allowed
  {
    if HasRun(c, base + [z] + [x]) {
      var es': seq<Event>, ms': seq<Store> :| IsRun(c, es', ms') && SameEvents(es', base + [z] + [x]);
      LaggardReturns(c, base, msb, ip, z, x, es', ms');
    }
  }

  lemma {:induction false} ThreeMore(c: Config, es: seq<Event>, ms: seq<Store>, e1: Event, m1: Store, e2: Event,
                                     m2: Store,
                                     e3: Event, m3: Store) returns (ms': seq<Store>)
    requires IsRun(c, es, ms) && (es != [] ==> es[|es| - 1].now <= e1.now) && e1.now <= e2.now <= e3.now
    requires Step(c, ms[|es|], e1, m1) && Step(c, m1, e2, m2) && Step(c, m2, e3, m3)
    ensures IsRun(c, es + [e1] + [e2] + [e3], ms')
  {
    RunExtend(map[], Steps(c), es, ms, e1, m1);
    RunExtend(map[], Steps(c), es + [e1], ms + [m1], e2, m2);
    RunExtend(map[], Steps(c), es + [e1] + [e2], ms + [m1] + [m2], e3, m3);
    ms' := ms + [m1] + [m2] + [m3];
  }

  /** With more callers than room, some run cannot do without one of its denied calls. */
  lemma {:induction false} DenialCanMatter(c: Config, callers: set<string>)
    returns (es: seq<Event>, ms: seq<Store>, i: nat)
    requires c.Valid() && |callers| > c.maxIPs
    ensures IsRun(c, es, ms) && Callers(es) <= callers
    ensures i < |es| && Denied(es, i) && !HasRun(c, Dropped(es, i))
  {
    var base, msb, ip, z, t := LaggardRun(c, callers);
    i := |base|;
    var m := msb[i];
    var d := Call(ip, t, Decide(c, c.capacity, t), None);
    var ez := Call(z, t, Decide(c, 0.0, t), Spare(z));
    var m1 := m[ip := Bucket(c.capacity, t)];
    assert |m1| == c.maxIPs by {
      UpdateSize(m, ip, Bucket(c.capacity, t));
    }
    FreshStays(c, m1, ip, z, t);
    var m2 := Without(m1[z := Bucket(1.0, t)], Spare(z));
    es := base + [d] + [ez] + [d];
    ms := ThreeMore(c, base, msb, d, m1, ez, m2, d, m2[ip := Bucket(c.capacity, t)]);
    assert Dropped(es, i) == base + [ez] + [d];
    AlwaysAdmitted(c, base, msb, ip, ez, d);
    CallersExtend(base, d);
    CallersExtend(base + [d], ez);
    CallersExtend(base + [d] + [ez], d);
  }

  /**
   Every denied call can be dropped from every run of the given callers, leaving a run
   with every other verdict equal, exactly when they all have room.
   */
  lemma {:induction false} DenialsErasableIff(c: Config, callers: set<string>)
    requires c.Valid()
    ensures (forall es: seq<Event>, ms: seq<Store>, i: nat ::
               IsRun(c, es, ms) && Callers(es) <= callers && i < |es| && Denied(es, i) ==> HasRun(c, Dropped(es, i)))
            <==> |callers| <= c.maxIPs
  {
    if |callers| <= c.maxIPs {
      forall es: seq<Event>, ms: seq<Store>, i: nat
        | IsRun(c, es, ms) && Callers(es) <= callers && i < |es| && Denied(es, i)
        ensures HasRun(c, Dropped(es, i))
      {
        SubsetSize(Callers(es), callers);
        DenialIsErasable(c, es, ms, i);
      }
    } else {
      var es, ms, i := DenialCanMatter(c, callers);
    }
  }
}
