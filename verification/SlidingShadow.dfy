/** Two maps of the sliding-window limiter, one of which still has the lists that cleanups dropped. */
module SlidingShadow {
  import opened Common
  import opened Timeline
  import opened Traffic
  import opened Crowds
  import opened SlidingMemory
  import opened SlidingWindow

  // ---------------------------------------------------------------------------
  // A map and the same map with lists that a cleanup has dropped
  // ---------------------------------------------------------------------------

  /** `m'` has the lists of `m`, none from before `cut`, and others that start before it. */
  ghost predicate Shadow(m: Store, m': Store, cut: Time) {
    && (forall k :: k in m ==> k in m' && m'[k] == m[k] && cut <= Front(m[k]))
    && (forall k :: k in m' && k !in m ==> Front(m'[k]) < cut)
  }

  lemma {:induction false} OldestExists(m: Store, keys: set<string>) returns (k: string)
    requires keys <= m.Keys && keys != {}
    ensures k in keys && forall j :: j in keys ==> Front(m[k]) <= Front(m[j])
  {
    var x :| x in keys;
    if keys == {x} {
      k := x;
    } else {
      k := OldestExists(m, keys - {x});
      if Front(m[x]) < Front(m[k]) {
        k := x;
      }
    }
  }

  /** What follows an admission: an eviction if the map is over its limit. */
  ghost predicate Trimmed(c: Config, m1: Store, m2: Store, victim: Option<string>) {
    if OverLimit(c, m1) then EvictStep(m1, Front, m2, victim) else m2 == m1 && victim == None
  }

  lemma {:induction false} ShadowSize(m: Store, m': Store, cut: Time)
    requires Shadow(m, m', cut)
    ensures |m| <= |m'| && (m != m' ==> |m| < |m'|)
  {
    SubsetSize(m.Keys, m'.Keys);
    if m != m' {
      var k :| k in m' && k !in m;
      SubsetSize(m.Keys, m'.Keys - {k});
    }
  }

  /** An eviction from the larger map takes one of the dropped lists, as long as there is one. */
  lemma {:induction false} EvictionShadow(c: Config, m1: Store, m1': Store, m2: Store, victim: Option<string>,
                                          cut: Time)
    returns (m2': Store, victim': Option<string>)
    requires Shadow(m1, m1', cut) && Trimmed(c, m1, m2, victim)
    requires c.maxIPs <= 0 || |m1'| <= c.maxIPs + 1
    ensures Trimmed(c, m1', m2', victim') && Shadow(m2, m2', cut)
  {
    ShadowSize(m1, m1', cut);
    if !OverLimit(c, m1') {
      m2', victim' := m1', None;
    } else if m1 == m1' {
      m2', victim' := m2, victim;
    } else {
      var k := OldestExists(m1', m1'.Keys);
      assert k !in m1 by {
        var extra :| extra in m1' && extra !in m1;
      }
      m2', victim' := if k == "" then m1' else m1' - {k}, if k == "" then None else Some(k);
    }
  }

  lemma {:induction false} GrownPopulated(c: Config, m: Store, ip: string, now: Time)
    requires AllPopulated(m)
    ensures Populated(Grown(c, m, ip, now)) == Grown(c, m, ip, now)
  {
    var m1 := Grown(c, m, ip, now);
    assert Populated(m1).Keys == m1.Keys;
  }

  lemma {:induction false} AdmissionTrims(c: Config, m: Store, e: Event, m': Store)
    requires c.Valid() && AllPopulated(m) && e.Call? && e.verdict.allowed && Step(c, m, e, m')
    ensures e.verdict == Decide(c, Expire(Stored(m, e.ip), e.now - c.window), e.now)
    ensures Trimmed(c, Grown(c, m, e.ip, e.now), m', e.victim)
  {
    GrownPopulated(c, m, e.ip, e.now);
  }

  lemma {:induction false} TrimmedIsStep(c: Config, m: Store, e: Event, m': Store)
    requires c.Valid() && AllPopulated(m) && e.Call? && e.verdict.allowed
    requires e.verdict == Decide(c, Expire(Stored(m, e.ip), e.now - c.window), e.now)
    requires Trimmed(c, Grown(c, m, e.ip, e.now), m', e.victim)
    ensures Step(c, m, e, m')
  {
    GrownPopulated(c, m, e.ip, e.now);
  }

  lemma {:induction false} GrownShadow(c: Config, m: Store, m': Store, ip: string, now: Time, cut: Time)
    requires c.Valid() && Shadow(m, m', cut) && cut <= now - c.window
    requires Expire(Stored(m, ip), now - c.window) == Expire(Stored(m', ip), now - c.window)
    ensures Shadow(Grown(c, m, ip, now), Grown(c, m', ip, now), cut)
  {
    ExpireTracks(Stored(m, ip), now - c.window);
  }

  lemma {:induction false} DenialShadow(c: Config, m: Store, m': Store, e: Event, m2: Store, cut: Time)
    returns (e': Event, m2': Store)
    requires c.Valid() && e.Call? && Step(c, m, e, m2) && !e.verdict.allowed
    requires Shadow(m, m', cut) && cut <= e.now - c.window
    requires Expire(Stored(m, e.ip), e.now - c.window) == Expire(Stored(m', e.ip), e.now - c.window)
    ensures SameCall(e', e) && Step(c, m', e', m2') && Shadow(m2, m2', cut)
  {
    var r := Expire(Stored(m, e.ip), e.now - c.window);
    ExpireTracks(Stored(m, e.ip), e.now - c.window);
    e', m2' := e, m'[e.ip := r];
    assert r != [];
  }

  lemma {:induction false} AdmissionShadow(c: Config, m: Store, m': Store, ip: string, now: Time, m2: Store,
                                           victim: Option<string>, cut: Time)
    returns (m2': Store, victim': Option<string>)
    requires c.Valid() && Shadow(m, m', cut) && cut <= now - c.window
    requires Expire(Stored(m, ip), now - c.window) == Expire(Stored(m', ip), now - c.window)
    requires c.maxIPs <= 0 || |m'.Keys + {ip}| <= c.maxIPs + 1
    requires Trimmed(c, Grown(c, m, ip, now), m2, victim)
    ensures Trimmed(c, Grown(c, m', ip, now), m2', victim') && Shadow(m2, m2', cut)
  {
    var m1, m1' := Grown(c, m, ip, now), Grown(c, m', ip, now);
    GrownShadow(c, m, m', ip, now, cut);
    assert |m1'| == |m'.Keys + {ip}| by {
      assert m1'.Keys == m'.Keys + {ip};
    }
    m2', victim' := EvictionShadow(c, m1, m1', m2, victim, cut);
  }

  // ---------------------------------------------------------------------------
  // Runs
  // ---------------------------------------------------------------------------

  lemma {:induction false} ExpireAll(l: seq<Time>, cutoff: Time)
    requires forall i :: 0 <= i < |l| ==> l[i] < cutoff
    ensures Expire(l, cutoff) == []
  {
    if l != [] {
      ExpireAll(l[1..], cutoff);
    }
  }

  /** A list that starts more than two windows ago is wholly expired. */
  lemma {:induction false} OldListExpired(c: Config, es: seq<Event>, ms: seq<Store>, ip: string, now: Time)
    requires c.Valid() && IsRun(c, es, ms) && (es != [] ==> es[|es| - 1].now <= now)
    requires ip in ms[|es|] && Front(ms[|es|][ip]) < now - 2.0 * c.window
    ensures Expire(ms[|es|][ip], now - c.window) == []
  {
    var l := ms[|es|][ip];
    RunInvariant(c, es, ms, ip, now);
    TracksPart(l, LiveHistory(es, ip), now - c.window, now);
    ExpireAll(l, now - c.window);
  }
}
