/** Why a circuit breaker changes its state: what ends each phase, over every interleaving. */
module BreakerPhases {
  import opened Common
  import opened CircuitBreaker
  import opened BreakerGuarantees

  // ---------------------------------------------------------------------------
  // One event
  // ---------------------------------------------------------------------------

  /** When the current phase began; the first one begins at time 0. */
  function EnteredAt(c: Config, es: seq<Event>): Time {
    if es == [] then 0.0
    else
      var before, e := es[..|es| - 1], es[|es| - 1];
      if After(c, es).phases == After(c, before).phases then EnteredAt(c, before) else e.now
  }

  /** When the breaker last opened, or time 0. */
  function LastOpened(c: Config, es: seq<Event>): Time {
    if es == [] then 0.0
    else
      var before, e := es[..|es| - 1], es[|es| - 1];
      if After(c, before).b.state != Open && After(c, es).b.state == Open then e.now else LastOpened(c, before)
  }

  /** `openedAt` is when the breaker last opened, also in the phases after that. */
  lemma {:induction false} OpenedAtExact(c: Config, es: seq<Event>)
    ensures After(c, es).b.openedAt == LastOpened(c, es)
    ensures After(c, es).b.state == Open ==> LastOpened(c, es) == EnteredAt(c, es)
  {
    if es != [] {
      OpenedAtExact(c, es[..|es| - 1]);
    }
  }

  /** The report of a request in flight. */
  predicate IsReport(s: System, e: Event) {
    e.Finish? && e.id in s.inFlight
  }

  /** The first sight of a request. */
  predicate IsNew(s: System, e: Event) {
    e.Arrive? && e.id !in s.admitted
  }

  /** What an event must be to end the current phase. */
  ghost predicate EndsPhase(c: Config, es: seq<Event>, e: Event) {
    var s := After(c, es);
    match s.b.state
    case Closed => IsReport(s, e) && LastAllFailed(Reports(c, es) + [e.status >= 500], c.failureThreshold)
    case Open => IsNew(s, e) && e.now >= EnteredAt(c, es) + c.cooldown
    case HalfOpen => IsReport(s, e)
  }

  /** The state a phase is followed by, if `e` ends it. */
  function Successor(state: State, e: Event): State {
    match state
    case Closed => Open
    case Open => HalfOpen
    case HalfOpen => if e.Finish? && e.status >= 500 then Open else Closed
  }

  lemma {:induction false} ClosedEnds(c: Config, es: seq<Event>, e: Event)
    requires c.Valid() && After(c, es).b.state == Closed
    ensures After(c, es + [e]).b.state == if EndsPhase(c, es, e) then Open else Closed
  {
    OpensExactly(c, es, e);
  }

  /**
   An event ends the current phase exactly when it is, in a closed phase, the report of
   the last of `failureThreshold` failures in a row; in an open one, a new request after
   the cooldown; in a half-open one, the report of any request in flight, however many
   probes there have been. A half-open phase is followed by an open one if that report
   is a failure and by a closed one if it is a success.
   */
  lemma {:induction false} PhaseEndsIff(c: Config, es: seq<Event>, e: Event)
    requires c.Valid()
    ensures var s, s' := After(c, es), After(c, es + [e]);
            s'.phases == if EndsPhase(c, es, e) then s.phases + [Successor(s.b.state, e)] else s.phases
  {
    assert (es + [e])[..|es|] == es;
    if After(c, es).b.state == Closed {
      ClosedEnds(c, es, e);
    } else {
      OpenedAtExact(c, es);
    }
  }

  /**
   A new request is let through exactly when the breaker is closed, or open for at
   least the cooldown, or half-open with at most `halfOpenMaxRequests` probes so far.
   */
  lemma {:induction false} AdmittedIff(c: Config, es: seq<Event>, id: nat, now: Time)
    requires c.Valid() && id !in After(c, es).admitted
    ensures var s := After(c, es);
            id in After(c, es + [Arrive(id, now)]).admitted <==>
              match s.b.state
              case Closed => true
              case Open => now >= EnteredAt(c, es) + c.cooldown
              case HalfOpen => |AdmittedIn(s, Current(s))| <= c.halfOpenMaxRequests
  {
    assert (es + [Arrive(id, now)])[..|es|] == es;
    OpenedAtExact(c, es);
    if After(c, es).b.state == HalfOpen {
      HalfOpenAccounting(c, es);
    }
  }

  // ---------------------------------------------------------------------------
  // The phases of a run
  // ---------------------------------------------------------------------------

  /** Event `i` of the run is the one that ends phase `p`. */
  ghost predicate EndedBy(c: Config, es: seq<Event>, p: nat, i: nat) {
    i < |es| && Current(After(c, es[..i])) == p && Current(After(c, es[..i + 1])) == p + 1
  }

  lemma {:induction false} PrefixPhases(c: Config, es: seq<Event>, i: nat)
    requires i <= |es|
    ensures After(c, es[..i]).phases <= After(c, es).phases
  {
    PhasesReach(c, es[..i], es[i..]);
    assert es[..i] + es[i..] == es;
  }

  lemma {:induction false} PhaseHasEnd(c: Config, es: seq<Event>, p: nat) returns (i: nat)
    requires p < Current(After(c, es))
    ensures EndedBy(c, es, p, i)
  {
    var n := |es| - 1;
    if p < Current(After(c, es[..n])) {
      i := PhaseHasEnd(c, es[..n], p);
      assert es[..n][..i] == es[..i] && es[..n][..i + 1] == es[..i + 1];
    } else {
      i := n;
      assert es[..n + 1] == es;
    }
  }

  lemma {:induction false} CurrentGrows(c: Config, es: seq<Event>, i: nat, j: nat)
    requires i <= j <= |es|
    ensures Current(After(c, es[..i])) <= Current(After(c, es[..j]))
  {
    PrefixPhases(c, es[..j], i);
    assert es[..j][..i] == es[..i];
  }

  lemma {:induction false} PhaseHasOneEnd(c: Config, es: seq<Event>, p: nat, i: nat, j: nat)
    requires EndedBy(c, es, p, i) && EndedBy(c, es, p, j)
    ensures i == j
  {
    if i < j {
      CurrentGrows(c, es, i + 1, j);
    } else if j < i {
      CurrentGrows(c, es, j + 1, i);
    }
  }

  /** The event that ended each past phase, and the phase that followed, are those of `PhaseEndsIff`. */
  lemma {:induction false} PhaseFollowed(c: Config, es: seq<Event>, p: nat) returns (i: nat)
    requires c.Valid() && p < Current(After(c, es))
    ensures EndedBy(c, es, p, i) && EndsPhase(c, es[..i], es[i])
    ensures After(c, es).phases[p] == After(c, es[..i]).b.state
    ensures After(c, es).phases[p + 1] == Successor(After(c, es).phases[p], es[i])
  {
    i := PhaseHasEnd(c, es, p);
    assert es[..i + 1] == es[..i] + [es[i]];
    PhaseEndsIff(c, es[..i], es[i]);
    RunInvariant(c, es[..i]);
    PrefixPhases(c, es, i);
    PrefixPhases(c, es, i + 1);
  }

  /**
   In every run what follows a half-open phase is open exactly when the one report that
   ended it was a failure, and closed exactly when it was a success.
   */
  lemma {:induction false} HalfOpenOutcome(c: Config, es: seq<Event>, p: nat, i: nat)
    requires c.Valid() && EndedBy(c, es, p, i) && p < Current(After(c, es)) && After(c, es).phases[p] == HalfOpen
    ensures IsReport(After(c, es[..i]), es[i])
    ensures After(c, es).phases[p + 1] == if es[i].status >= 500 then Open else Closed
  {
    var j := PhaseFollowed(c, es, p);
    PhaseHasOneEnd(c, es, p, i, j);
  }
}
