/**
 The circuit metrics fed by breaker transitions, and a fleet of breakers, one per
 domain, that share them.
 */
module CircuitMetrics {
  import opened MetricsKeys
  import opened CircuitBreaker
  import opened BreakerGuarantees

  /** The open gauge by target and the transition counter by target and state. */
  datatype Gauges = Gauges(open: map<string, int>, transitions: map<string, int>)

  function Key(target: string, to: State): string {
    target + "|" + Label(to)
  }

  function Get(m: map<string, int>, k: string): int {
    if k in m then m[k] else 0
  }

  /** What the transition callback does. */
  function Note(g: Gauges, target: string, to: State): Gauges {
    Gauges(g.open[target := if to == Open then 1 else 0],
           g.transitions[Key(target, to) := Get(g.transitions, Key(target, to)) + 1])
  }

  lemma {:induction false} KeyInjective(t1: string, s1: State, t2: string, s2: State)
    ensures Key(t1, s1) == Key(t2, s2) <==> t1 == t2 && s1 == s2
  {
    if Key(t1, s1) == Key(t2, s2) {
      SplitUnique(t1, t2, Label(s1), Label(s2));
    }
  }

  /**
   A transition counter is exported under two labels that lead back to its key; they
   are the target and the state exactly when the target has no pipe.
   */
  lemma {:induction false} LabelsExact(target: string, to: State)
    ensures var labels := Fields(Key(target, to), 2);
            && |labels| == 2 && labels[0] + "|" + labels[1] == Key(target, to)
            && (labels == [target, Label(to)] <==> PIPE !in target)
  {
    var key, parts := Key(target, to), [target, Label(to)];
    var labels := Fields(key, 2);
    assert parts[1..] == [Label(to)] && Join(parts) == key;
    RoundTripIff(parts);
    assert parts[..1] == [target];
    PipesAdd(target + "|", Label(to));
    PipesAdd(target, "|");
    FieldCount(key, 2);
    JoinFields(key, 2);
    assert labels == [labels[0], labels[1]] && labels[1..] == [labels[1]];
  }

  // ---------------------------------------------------------------------------
  // A fleet of breakers
  // ---------------------------------------------------------------------------

  /** The settings and the target of each domain's breaker. */
  datatype Site = Site(cfg: Config, target: string)

  ghost predicate ValidSites(sites: map<string, Site>) {
    forall d :: d in sites ==> sites[d].cfg.Valid()
  }

  datatype Fleet = Fleet(systems: map<string, System>, g: Gauges)

  datatype Happening = Happening(domain: string, e: Event)

  function StartFleet(sites: map<string, Site>): Fleet {
    Fleet(map d | d in sites :: START, Gauges(map[], map[]))
  }

  function NextFleet(sites: map<string, Site>, f: Fleet, h: Happening): Fleet {
    if h.domain !in sites || h.domain !in f.systems then f
    else
      var s := f.systems[h.domain];
      var s' := Next(sites[h.domain].cfg, s, h.e);
      Fleet(f.systems[h.domain := s'],
            if s'.b.state == s.b.state then f.g else Note(f.g, sites[h.domain].target, s'.b.state))
  }

  function AfterAll(sites: map<string, Site>, hs: seq<Happening>): Fleet {
    if hs == [] then StartFleet(sites)
    else NextFleet(sites, AfterAll(sites, hs[..|hs| - 1]), hs[|hs| - 1])
  }

  ghost predicate DistinctTargets(sites: map<string, Site>) {
    forall d1, d2 :: d1 in sites && d2 in sites && sites[d1].target == sites[d2].target ==> d1 == d2
  }

  /** The events of one domain. */
  function EventsOf(hs: seq<Happening>, d: string): seq<Event> {
    if hs == [] then []
    else
      var h := hs[|hs| - 1];
      EventsOf(hs[..|hs| - 1], d) + if h.domain == d then [h.e] else []
  }

  /** Breakers do not influence one another. */
  lemma {:induction false} FleetIsSystems(sites: map<string, Site>, hs: seq<Happening>)
    ensures AfterAll(sites, hs).systems.Keys == sites.Keys
    ensures forall d :: d in sites ==>
              AfterAll(sites, hs).systems[d] == After(sites[d].cfg, EventsOf(hs, d))
  {
    if hs != [] {
      var init, h := hs[..|hs| - 1], hs[|hs| - 1];
      FleetIsSystems(sites, init);
      forall d | d in sites
        ensures AfterAll(sites, hs).systems[d] == After(sites[d].cfg, EventsOf(hs, d))
      {
        if h.domain == d {
        } else {
          assert EventsOf(hs, d) == EventsOf(init, d);
        }
      }
    }
  }

  /** The metrics of one domain agree with its breaker. */
  ghost predicate Tracked(f: Fleet, target: string, s: System) {
    && Get(f.g.open, target) == (if s.b.state == Open then 1 else 0)
    && Counted(f.g, target, s.phases)
  }

  /** A noted transition moves its own counter by one and no other. */
  lemma {:induction false} NoteCounts(g: Gauges, t': string, to': State, t: string, to: State)
    ensures Get(Note(g, t', to').transitions, Key(t, to))
         == Get(g.transitions, Key(t, to)) + if t == t' && to == to' then 1 else 0
  {
    KeyInjective(t, to, t', to');
  }

  ghost predicate Counted(g: Gauges, target: string, phases: seq<State>) {
    forall to :: Get(g.transitions, Key(target, to)) == Count(phases, to) - if to == Closed then 1 else 0
  }

  lemma {:induction false} NoteCounted(g: Gauges, target: string, phases: seq<State>, to': State)
    requires Counted(g, target, phases)
    ensures Counted(Note(g, target, to'), target, phases + [to'])
  {
    forall to ensures Get(Note(g, target, to').transitions, Key(target, to))
                   == Count(phases + [to'], to) - if to == Closed then 1 else 0
    {
      NoteCounts(g, target, to', target, to);
    }
  }

  lemma {:induction false} NoteElsewhere(g: Gauges, t': string, to': State, target: string, phases: seq<State>)
    requires Counted(g, target, phases) && t' != target
    ensures Counted(Note(g, t', to'), target, phases)
  {
    forall to ensures Get(Note(g, t', to').transitions, Key(target, to)) == Get(g.transitions, Key(target, to)) {
      NoteCounts(g, t', to', target, to);
    }
  }

  /** A domain's own event keeps its metrics in step. */
  lemma {:induction false} OwnEventTracked(sites: map<string, Site>, f: Fleet, h: Happening)
    requires h.domain in sites && h.domain in f.systems
    requires Tracked(f, sites[h.domain].target, f.systems[h.domain])
    ensures var f' := NextFleet(sites, f, h); Tracked(f', sites[h.domain].target, f'.systems[h.domain])
  {
    var s := f.systems[h.domain];
    var s' := Next(sites[h.domain].cfg, s, h.e);
    if s'.b.state != s.b.state {
      assert s'.phases == s.phases + [s'.b.state];
      NoteCounted(f.g, sites[h.domain].target, s.phases, s'.b.state);
    } else {
      assert s'.phases == s.phases;
    }
  }

  /** An event of a domain with another target leaves the metrics alone. */
  lemma {:induction false} OtherEventTracked(sites: map<string, Site>, f: Fleet, h: Happening, d: string)
    requires d in sites && d in f.systems && (h.domain in sites ==> sites[h.domain].target != sites[d].target)
    requires Tracked(f, sites[d].target, f.systems[d])
    ensures Tracked(NextFleet(sites, f, h), sites[d].target, f.systems[d])
    ensures NextFleet(sites, f, h).systems.Keys == f.systems.Keys
    ensures NextFleet(sites, f, h).systems[d] == f.systems[d]
  {
    if h.domain in sites && h.domain in f.systems {
      var to' := Next(sites[h.domain].cfg, f.systems[h.domain], h.e).b.state;
      NoteElsewhere(f.g, sites[h.domain].target, to', sites[d].target, f.systems[d].phases);
    }
  }

  lemma {:induction false} StartTracked(target: string)
    ensures Tracked(Fleet(map[], Gauges(map[], map[])), target, START)
  {
    forall to ensures Count(START.phases, to) == if to == Closed then 1 else 0 {
      assert START.phases[..0] == [];
    }
  }

  /**
   When no two domains share a target, the gauge of a target is 1 exactly while its
   breaker is open, and each transition counter is the number of times its breaker
   entered that state.
   */
  lemma {:induction false} MetricsTrackBreakers(sites: map<string, Site>, hs: seq<Happening>, d: string)
    requires DistinctTargets(sites) && d in sites
    ensures d in AfterAll(sites, hs).systems
    ensures Tracked(AfterAll(sites, hs), sites[d].target, AfterAll(sites, hs).systems[d])
  {
    FleetIsSystems(sites, hs);
    if hs == [] {
      StartTracked(sites[d].target);
    } else {
      var init, h := hs[..|hs| - 1], hs[|hs| - 1];
      MetricsTrackBreakers(sites, init, d);
      if h.domain == d {
        OwnEventTracked(sites, AfterAll(sites, init), h);
      } else {
        OtherEventTracked(sites, AfterAll(sites, init), h, d);
      }
    }
  }

  /**
   When no two domains share a target, the counter exported under a target and a state's
   name is how often its breaker entered that state; the initial closed state is not counted.
   */
  lemma {:induction false} CountersByName(sites: map<string, Site>, hs: seq<Happening>, d: string)
    requires DistinctTargets(sites) && d in sites
    ensures d in AfterAll(sites, hs).systems
    ensures var f := AfterAll(sites, hs);
            var phases := f.systems[d].phases;
            && Get(f.g.transitions, sites[d].target + "|open") == Count(phases, Open)
            && Get(f.g.transitions, sites[d].target + "|half_open") == Count(phases, HalfOpen)
            && Get(f.g.transitions, sites[d].target + "|closed") == Count(phases, Closed) - 1
  {
    MetricsTrackBreakers(sites, hs, d);
    var target := sites[d].target;
    assert Key(target, Open) == target + "|open" && Key(target, HalfOpen) == target + "|half_open";
    assert Key(target, Closed) == target + "|closed";
  }

  ghost predicate Faithful(sites: map<string, Site>, f: Fleet) {
    forall d :: d in sites && d in f.systems ==>
      (Get(f.g.open, sites[d].target) == 1 <==> f.systems[d].b.state == Open)
  }

  function Tagged(d: string, es: seq<Event>): seq<Happening> {
    if es == [] then [] else Tagged(d, es[..|es| - 1]) + [Happening(d, es[|es| - 1])]
  }

  /** A fleet in which only one domain sees traffic. */
  lemma {:induction false} SoloRun(sites: map<string, Site>, d: string, es: seq<Event>)
    requires d in sites
    ensures var f := AfterAll(sites, Tagged(d, es));
            && f.systems == StartFleet(sites).systems[d := After(sites[d].cfg, es)]
            && Tracked(f, sites[d].target, f.systems[d])
  {
    if es == [] {
      StartTracked(sites[d].target);
    } else {
      var init, e := es[..|es| - 1], es[|es| - 1];
      var hs := Tagged(d, init);
      SoloRun(sites, d, init);
      assert (hs + [Happening(d, e)])[..|hs|] == hs;
      OwnEventTracked(sites, AfterAll(sites, hs), Happening(d, e));
    }
  }

  /** Two domains with one target: when the first opens, the gauge is wrong about the second. */
  lemma {:induction false} SharedTargetMisleads(sites: map<string, Site>, d1: string, d2: string)
    requires ValidSites(sites) && d1 in sites && d2 in sites && d1 != d2
    requires sites[d1].target == sites[d2].target
    ensures exists hs: seq<Happening> :: !Faithful(sites, AfterAll(sites, hs))
  {
    var c := sites[d1].cfg;
    var es := FailingRun(c, c.failureThreshold);
    SoloRun(sites, d1, es);
    var f := AfterAll(sites, Tagged(d1, es));
    assert f.systems[d1].b.state == Open && f.systems[d2] == START;
    assert Get(f.g.open, sites[d2].target) == 1;
    assert !Faithful(sites, f);
  }

  /** The gauge is right about every breaker in every run exactly when no two domains share a target. */
  lemma {:induction false} GaugeFaithfulIffDistinct(sites: map<string, Site>)
    requires ValidSites(sites)
    ensures (forall hs: seq<Happening> :: Faithful(sites, AfterAll(sites, hs))) <==> DistinctTargets(sites)
  {
    if DistinctTargets(sites) {
      forall hs: seq<Happening> ensures Faithful(sites, AfterAll(sites, hs)) {
        forall d | d in sites ensures d in AfterAll(sites, hs).systems
          ensures Tracked(AfterAll(sites, hs), sites[d].target, AfterAll(sites, hs).systems[d])
        {
          MetricsTrackBreakers(sites, hs, d);
        }
      }
    } else {
      var d1, d2 :| d1 in sites && d2 in sites && sites[d1].target == sites[d2].target && d1 != d2;
      SharedTargetMisleads(sites, d1, d2);
    }
  }
}
