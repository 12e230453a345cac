/** What the circuit breaker guarantees over every interleaving of arrivals and reports. */
module BreakerGuarantees {
  import opened Common
  import opened CircuitBreaker

  // ---------------------------------------------------------------------------
  // Half-open probes
  // ---------------------------------------------------------------------------

  /**
   While half-open, every request admitted in this phase is still in flight and there
   is one more of them than the breaker has counted, so they exceed the configured
   maximum exactly when the counter has reached it. No half-open phase, past or
   present, admits more than the configured maximum plus one, and no open phase
   admits any.
   */
  lemma {:induction false} HalfOpenAccounting(c: Config, es: seq<Event>)
    requires c.Valid()
    ensures var s := After(c, es);
            && (s.b.state == HalfOpen ==>
                  && AdmittedIn(s, Current(s)) <= s.inFlight
                  && |AdmittedIn(s, Current(s))| == s.b.halfOpenRequests + 1
                  && (|AdmittedIn(s, Current(s))| > c.halfOpenMaxRequests <==>
                        s.b.halfOpenRequests == c.halfOpenMaxRequests))
            && (forall p :: 0 <= p < |s.phases| && s.phases[p] == HalfOpen ==>
                  |AdmittedIn(s, p)| <= c.halfOpenMaxRequests + 1)
            && (forall p :: 0 <= p < |s.phases| && s.phases[p] == Open ==> AdmittedIn(s, p) == {})
  {
    RunInvariant(c, es);
    var s := After(c, es);
    assert WithinQuota(c, s, Current(s));
    forall p | 0 <= p < |s.phases| && s.phases[p] != Closed
      ensures |AdmittedIn(s, p)| <= c.halfOpenMaxRequests + 1
      ensures s.phases[p] == Open ==> AdmittedIn(s, p) == {}
    {
      assert WithinQuota(c, s, p);
    }
  }

  /**
   In no reachable state is the breaker stuck: it admits now, or it is open and still
   cooling down, or it is half-open with a probe in flight, and the report of any
   request in flight settles it.
   */
  lemma {:induction false} NeverStuck(c: Config, es: seq<Event>, now: Time)
    requires c.Valid()
    ensures var s := After(c, es);
            || Allow(c, s.b, now).1
            || (s.b.state == Open && now < s.b.openedAt + c.cooldown)
            || (&& s.b.state == HalfOpen && s.b.halfOpenRequests == c.halfOpenMaxRequests
                && (exists id :: id in s.inFlight && id in AdmittedIn(s, Current(s)))
                && forall id, status: int :: id in s.inFlight ==>
                     Next(c, s, Finish(id, status, now)).b.state == if status >= 500 then Open else Closed)
  {
    RunInvariant(c, es);
    var s := After(c, es);
    if s.b.state == HalfOpen && !Allow(c, s.b, now).1 {
      assert WithinQuota(c, s, Current(s));
      assert AdmittedIn(s, Current(s)) != {};
      var id :| id in AdmittedIn(s, Current(s));
    }
  }

  /** After `k` requests that came and failed at time 0, with request 0 still in flight. */
  ghost predicate Failed(c: Config, s: System, k: int) {
    && s.inFlight == {0} && 0 in s.admitted && s.admitted[0] == 0
    && (forall id :: id in s.admitted ==> id <= k)
    && if k < c.failureThreshold then
         s.b.state == Closed && s.b.consecutiveFailures == k && s.phases == [Closed]
       else
         s.b.state == Open && s.b.openedAt == 0.0 && s.phases == [Closed, Open]
  }

  lemma {:induction false} FailingRun(c: Config, k: nat) returns (es: seq<Event>)
    requires c.Valid() && k <= c.failureThreshold
    ensures Failed(c, After(c, es), k)
  {
    if k == 0 {
      es := [Arrive(0, 0.0)];
      assert es[..0] == [];
    } else {
      es := FailingRun(c, k - 1);
      var s := After(c, es);
      var s1 := Next(c, s, Arrive(k, 0.0));
      assert s1.inFlight - {k} == {0};
      es := es + [Arrive(k, 0.0)] + [Finish(k, 500, 0.0)];
    }
  }

  /** Half-open after a full cooldown, with `k` probes let through and nothing reported since. */
  ghost predicate Probing(c: Config, s: System, k: int) {
    && s.b.state == HalfOpen && s.b.halfOpenRequests == k - 1
    && s.phases == [Closed, Open, HalfOpen]
    && 0 in s.inFlight && 0 in s.admitted && s.admitted[0] == 0
    && forall id :: id in s.admitted ==> id <= c.failureThreshold + k
  }

  lemma {:induction false} ProbingRun(c: Config, k: nat) returns (es: seq<Event>)
    requires c.Valid() && 1 <= k <= c.halfOpenMaxRequests + 1
    ensures Probing(c, After(c, es), k)
  {
    if k == 1 {
      es := FailingRun(c, c.failureThreshold);
    } else {
      es := ProbingRun(c, k - 1);
    }
    var e := Arrive(c.failureThreshold + k, c.cooldown);
    es := es + [e];
  }

  /** The bound is met for every configuration: one probe more than configured can pass. */
  lemma {:induction false} ProbeBoundTight(c: Config)
    requires c.Valid()
    ensures exists es: seq<Event>, p :: 0 <= p < |After(c, es).phases|
              && After(c, es).phases[p] == HalfOpen
              && |AdmittedIn(After(c, es), p)| == c.halfOpenMaxRequests + 1
  {
    var es := ProbingRun(c, c.halfOpenMaxRequests + 1);
    HalfOpenAccounting(c, es);
    assert After(c, es).phases[2] == HalfOpen;
  }

  /**
   A half-open breaker closes on the success of any request in flight, not only of a
   probe: for every configuration a request admitted before it opened can close it
   while no probe has reported.
   */
  lemma {:induction false} LateReportCloses(c: Config)
    requires c.Valid()
    ensures exists es: seq<Event>, e: Event ::
              var s, s' := After(c, es), After(c, es + [e]);
              && s.b.state == HalfOpen && s'.b.state == Closed
              && e.Finish? && e.id in s.admitted && s.admitted[e.id] != Current(s)
              && AdmittedIn(s', Current(s)) <= s'.inFlight
  {
    var es := ProbingRun(c, 1);
    var s, e := After(c, es), Finish(0, 200, c.cooldown);
    HalfOpenAccounting(c, es);
    assert AdmittedIn(After(c, es + [e]), 2) == AdmittedIn(s, 2);
  }

  /** The event ends the half-open phase. */
  predicate Settles(c: Config, s: System, e: Event) {
    s.b.state == HalfOpen && Next(c, s, e).b.state != HalfOpen
  }

  predicate IsProbeReport(s: System, e: Event) {
    e.Finish? && e.id in AdmittedIn(s, Current(s))
  }

  /** In a half-open state only a probe's report can settle exactly when only probes are in flight. */
  lemma {:induction false} SettledByProbesIff(c: Config, es: seq<Event>)
    requires c.Valid() && After(c, es).b.state == HalfOpen
    ensures var s := After(c, es);
            (forall e: Event :: Settles(c, s, e) ==> IsProbeReport(s, e)) <==> s.inFlight <= AdmittedIn(s, Current(s))
  {
    var s := After(c, es);
    if s.inFlight <= AdmittedIn(s, Current(s)) {
      forall e: Event | Settles(c, s, e) ensures IsProbeReport(s, e) {
      }
    } else {
      var id :| id in s.inFlight && id !in AdmittedIn(s, Current(s));
      var e := Finish(id, 200, 0.0);
      assert Settles(c, s, e) && !IsProbeReport(s, e);
    }
  }

  /** The requests in flight that are not probes of the current phase. */
  function Stale(s: System): set<nat> {
    s.inFlight - AdmittedIn(s, Current(s))
  }

  lemma {:induction false} StaleArrive(c: Config, s: System, id: nat, now: Time)
    requires Invariant(c, s) && s.b.state == HalfOpen
    ensures Stale(Next(c, s, Arrive(id, now))) == Stale(s) && Next(c, s, Arrive(id, now)).b.state == HalfOpen
  {
    var s' := Next(c, s, Arrive(id, now));
    if s' != s {
      assert s'.phases == s.phases;
      if s'.inFlight != s.inFlight {
        AdmissionCounts(s, s', id, Current(s), Current(s));
        assert Stale(s') == Stale(s);
      }
    }
  }

  lemma {:induction false} StaleNext(c: Config, s: System, e: Event)
    requires Invariant(c, s) && s.b.state == HalfOpen && Next(c, s, e).phases == s.phases
    ensures Stale(Next(c, s, e)) == Stale(s) && Next(c, s, e).b.state == HalfOpen
  {
    if e.Arrive? {
      StaleArrive(c, s, e.id, e.now);
    }
  }

  /** No other request gets into flight while the phase lasts. */
  lemma {:induction false} StaleStays(c: Config, es: seq<Event>, more: seq<Event>)
    requires c.Valid() && After(c, es).b.state == HalfOpen && After(c, es + more).phases == After(c, es).phases
    ensures Stale(After(c, es + more)) == Stale(After(c, es)) && After(c, es + more).b.state == HalfOpen
  {
    if more == [] {
      assert es + more == es;
    } else {
      var n := |more| - 1;
      var mid := es + more[..n];
      assert es + more == mid + [more[n]];
      PhasesReach(c, es, more[..n]);
      StaleStays(c, es, more[..n]);
      RunInvariant(c, mid);
      StaleNext(c, After(c, mid), more[n]);
    }
  }

  lemma {:induction false} PhasesReach(c: Config, es: seq<Event>, more: seq<Event>)
    ensures After(c, es).phases <= After(c, es + more).phases
  {
    if more == [] {
      assert es + more == es;
    } else {
      var n := |more| - 1;
      assert es + more == es + more[..n] + [more[n]];
      PhasesReach(c, es, more[..n]);
    }
  }

  /** However the phase goes on, what settles it is a probe's report. */
  ghost predicate SettledByProbes(c: Config, es: seq<Event>) {
    forall more: seq<Event>, e: Event ::
      After(c, es + more).phases == After(c, es).phases && Settles(c, After(c, es + more), e) ==>
        IsProbeReport(After(c, es + more), e)
  }

  /**
   From a half-open state on, the phase is settled by a probe in every continuation
   exactly when only probes are in flight.
   */
  lemma {:induction false} PhaseSettledByProbesIff(c: Config, es: seq<Event>)
    requires c.Valid() && After(c, es).b.state == HalfOpen
    ensures SettledByProbes(c, es) <==> Stale(After(c, es)) == {}
  {
    if Stale(After(c, es)) == {} {
      forall more: seq<Event>, e: Event
        | After(c, es + more).phases == After(c, es).phases && Settles(c, After(c, es + more), e)
        ensures IsProbeReport(After(c, es + more), e)
      {
        StaleStays(c, es, more);
        assert e.id !in Stale(After(c, es + more));
      }
    } else {
      var id :| id in Stale(After(c, es));
      assert es + [] == es;
      var e := Finish(id, 200, 0.0);
      assert Settles(c, After(c, es + []), e) && !IsProbeReport(After(c, es + []), e);
    }
  }

  // ---------------------------------------------------------------------------
  // Opening
  // ---------------------------------------------------------------------------

  /** The outcomes reported since the breaker last became closed; true is a failure. */
  function Reports(c: Config, es: seq<Event>): seq<bool> {
    if es == [] then []
    else
      var before, e := es[..|es| - 1], es[|es| - 1];
      var s := After(c, before);
      var s' := Next(c, s, e);
      if s.b.state != Closed && s'.b.state == Closed then []
      else if e.Finish? && e.id in s.inFlight then Reports(c, before) + [e.status >= 500]
      else Reports(c, before)
  }

  /** The last `k` reports all exist and are failures. */
  ghost predicate LastAllFailed(r: seq<bool>, k: int) {
    |r| >= k && forall i :: |r| - k <= i < |r| ==> r[i]
  }

  /** How many entries at the end are true. */
  function Trailing(r: seq<bool>): nat {
    if r == [] || !r[|r| - 1] then 0 else 1 + Trailing(r[..|r| - 1])
  }

  lemma {:induction false} TrailingMeaning(r: seq<bool>, k: nat)
    ensures Trailing(r) >= k <==> LastAllFailed(r, k)
  {
    if k > 0 && r != [] && r[|r| - 1] {
      var n := |r| - 1;
      TrailingMeaning(r[..n], k - 1);
      if LastAllFailed(r[..n], k - 1) {
        forall i | |r| - k <= i < |r| ensures r[i] {
          if i < n {
            assert r[..n][i];
          }
        }
      }
    }
  }

  /** All outcomes reported so far; true is a success. */
  function Successes(c: Config, es: seq<Event>): seq<bool> {
    if es == [] then []
    else
      var before, e := es[..|es| - 1], es[|es| - 1];
      if e.Finish? && e.id in After(c, before).inFlight then Successes(c, before) + [e.status < 500]
      else Successes(c, before)
  }

  ghost predicate CountersMatch(c: Config, es: seq<Event>) {
    && After(c, es).b.consecutiveFailures == Trailing(Reports(c, es))
    && After(c, es).b.consecutiveSuccesses == Trailing(Successes(c, es))
  }

  lemma {:induction false} FailuresNext(c: Config, es: seq<Event>, e: Event)
    requires After(c, es).b.consecutiveFailures == Trailing(Reports(c, es))
    ensures After(c, es + [e]).b.consecutiveFailures == Trailing(Reports(c, es + [e]))
  {
    assert (es + [e])[..|es|] == es;
    if e.Finish? {
      TrailingAppend(Reports(c, es), e.status >= 500);
    }
  }

  lemma {:induction false} SuccessesNext(c: Config, es: seq<Event>, e: Event)
    requires After(c, es).b.consecutiveSuccesses == Trailing(Successes(c, es))
    ensures After(c, es + [e]).b.consecutiveSuccesses == Trailing(Successes(c, es + [e]))
  {
    assert (es + [e])[..|es|] == es;
    if e.Finish? {
      TrailingAppend(Successes(c, es), e.status < 500);
    }
  }

  /**
   In every state the failure counter is the number of failures since the last success
   or closing, and the success counter that of successes since the last failure.
   */
  lemma {:induction false} CountersMatchReports(c: Config, es: seq<Event>)
    requires c.Valid()
    ensures CountersMatch(c, es)
  {
    if es != [] {
      var before, e := es[..|es| - 1], es[|es| - 1];
      CountersMatchReports(c, before);
      FailuresNext(c, before, e);
      SuccessesNext(c, before, e);
      assert es == before + [e];
    }
  }

  lemma {:induction false} TrailingAppend(r: seq<bool>, failed: bool)
    ensures Trailing(r + [failed]) == if failed then Trailing(r) + 1 else 0
  {
    assert (r + [failed])[..|r|] == r;
  }

  /**
   From closed, an event opens the breaker exactly when it is a report and the last
   `failureThreshold` reports since the breaker last closed, this one included, are
   all failures.
   */
  lemma {:induction false} OpensExactly(c: Config, es: seq<Event>, e: Event)
    requires c.Valid() && After(c, es).b.state == Closed
    ensures After(c, es + [e]).b.state == Open
            <==> && e.Finish? && e.id in After(c, es).inFlight
                 && LastAllFailed(Reports(c, es) + [e.status >= 500], c.failureThreshold)
    ensures After(c, es + [e]).b.state != HalfOpen
  {
    if e.Finish? {
      var r := Reports(c, es);
      TrailingAppend(r, e.status >= 500);
      assert After(c, es).b.consecutiveFailures == Trailing(r) by {
        CountersMatchReports(c, es);
      }
      assert Trailing(r + [e.status >= 500]) >= c.failureThreshold
        <==> LastAllFailed(r + [e.status >= 500], c.failureThreshold) by {
        TrailingMeaning(r + [e.status >= 500], c.failureThreshold);
      }
    }
  }

  // ---------------------------------------------------------------------------
  // Cooling down
  // ---------------------------------------------------------------------------

  ghost predicate Monotone(es: seq<Event>) {
    forall i, j :: 0 <= i < j < |es| ==> es[i].now <= es[j].now
  }

  /** Once opened at `t`, the breaker stays open and admits nothing before the cooldown is over. */
  lemma {:induction false} StaysOpen(c: Config, es: seq<Event>, more: seq<Event>, t: Time)
    requires c.Valid()
    requires After(c, es).b.state == Open && After(c, es).b.openedAt == t
    requires forall i :: 0 <= i < |more| ==> more[i].now < t + c.cooldown
    ensures After(c, es + more).b.state == Open && After(c, es + more).b.openedAt == t
    ensures After(c, es + more).admitted == After(c, es).admitted
  {
    if more == [] {
      assert es + more == es;
    } else {
      var n := |more| - 1;
      StaysOpen(c, es, more[..n], t);
      assert es + more == es + more[..n] + [more[n]];
    }
  }

  /**
   Whatever reports arrive in the meantime, no request is admitted between the event
   that opened the breaker and the end of the cooldown.
   */
  lemma {:induction false} CooldownHolds(c: Config, es: seq<Event>, i: nat, j: nat)
    requires c.Valid() && Monotone(es) && i < j < |es|
    requires After(c, es[..i]).b.state != Open && After(c, es[..i + 1]).b.state == Open
    requires es[j].now < es[i].now + c.cooldown
    ensures After(c, es[..j + 1]).b.state == Open
    ensures After(c, es[..j + 1]).admitted == After(c, es[..i + 1]).admitted
  {
    assert es[..i + 1] == es[..i] + [es[i]];
    var more := es[i + 1..j + 1];
    assert es[..j + 1] == es[..i + 1] + more;
    forall k | 0 <= k < |more| ensures more[k].now < es[i].now + c.cooldown {
      assert more[k] == es[i + 1 + k];
      assert es[i + 1 + k].now <= es[j].now;
    }
    StaysOpen(c, es[..i + 1], more, es[i].now);
  }

  // ---------------------------------------------------------------------------
  // Transition counts
  // ---------------------------------------------------------------------------

  function Count(phases: seq<State>, s: State): nat {
    if phases == [] then 0
    else Count(phases[..|phases| - 1], s) + if phases[|phases| - 1] == s then 1 else 0
  }

  /** Openings exceed half-openings by one exactly while open; settled half-openings cover the closings. */
  lemma {:induction false} LawfulCounts(phases: seq<State>)
    requires Lawful(phases)
    ensures var last := phases[|phases| - 1];
            && Count(phases, Open) == Count(phases, HalfOpen) + (if last == Open then 1 else 0)
            && Count(phases, Closed) - 1 <= Count(phases, HalfOpen) - (if last == HalfOpen then 1 else 0)
  {
    var n := |phases| - 1;
    if n == 0 {
      assert phases[..0] == [];
    } else {
      var init := phases[..n];
      assert Edge(phases[n - 1], phases[n]);
      assert Lawful(init) by {
        forall i | 0 < i < n ensures Edge(init[i - 1], init[i]) {
          assert Edge(phases[i - 1], phases[i]);
        }
      }
      LawfulCounts(init);
    }
  }

  /** In every run the transitions to open equal those to half-open, plus one exactly while open. */
  lemma {:induction false} TransitionConservation(c: Config, es: seq<Event>)
    requires c.Valid()
    ensures var s := After(c, es);
            && Lawful(s.phases)
            && Count(s.phases, Open) == Count(s.phases, HalfOpen) + (if s.b.state == Open then 1 else 0)
  {
    RunInvariant(c, es);
    LawfulCounts(After(c, es).phases);
  }
}
