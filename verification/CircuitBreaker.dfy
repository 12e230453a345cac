/**
 The circuit breaker: its state, its operations, and the requests that pass it.
 Requests are admitted and later report success or failure; the report of a
 request may arrive when the breaker has long left the state that admitted it.
 */
module CircuitBreaker {
  import opened Common

  datatype State = Closed | Open | HalfOpen

  function Label(s: State): string {
    match s
    case Closed => "closed"
    case Open => "open"
    case HalfOpen => "half_open"
  }

  datatype Config = Config(failureThreshold: int, cooldown: real, halfOpenMaxRequests: int) {
    predicate Valid() {
      failureThreshold > 0 && cooldown > 0.0 && halfOpenMaxRequests > 0
    }
  }

  /** Settings that are not positive are replaced by defaults. */
  function Normalized(c: Config): (r: Config)
    ensures r.Valid()
    ensures if c.failureThreshold > 0 then r.failureThreshold == c.failureThreshold else r.failureThreshold == 5
    ensures if c.cooldown > 0.0 then r.cooldown == c.cooldown else r.cooldown == 30.0
    ensures if c.halfOpenMaxRequests > 0 then r.halfOpenMaxRequests == c.halfOpenMaxRequests
            else r.halfOpenMaxRequests == 1
  {
    Config(if c.failureThreshold <= 0 then 5 else c.failureThreshold,
           if c.cooldown <= 0.0 then 30.0 else c.cooldown,
           if c.halfOpenMaxRequests <= 0 then 1 else c.halfOpenMaxRequests)
  }

  datatype Breaker = Breaker(state: State, consecutiveFailures: int, consecutiveSuccesses: int,
                             openedAt: Time, halfOpenRequests: int)

  const FRESH := Breaker(Closed, 0, 0, 0.0, 0)

  function TransitionTo(b: Breaker, s: State, now: Time): Breaker {
    b.(state := s,
       halfOpenRequests := 0,
       openedAt := if s == Open then now else b.openedAt,
       consecutiveFailures := if s == Closed then 0 else b.consecutiveFailures)
  }

  /** `Allow`: the breaker afterwards, and whether the request may proceed. */
  function Allow(c: Config, b: Breaker, now: Time): (Breaker, bool) {
    match b.state
    case Closed => (b, true)
    case Open =>
      if now - b.openedAt >= c.cooldown then (TransitionTo(b, HalfOpen, now), true) else (b, false)
    case HalfOpen =>
      if b.halfOpenRequests < c.halfOpenMaxRequests then (b.(halfOpenRequests := b.halfOpenRequests + 1), true)
      else (b, false)
  }

  function RecordSuccess(b: Breaker, now: Time): Breaker {
    var b1 := b.(consecutiveFailures := 0, consecutiveSuccesses := b.consecutiveSuccesses + 1);
    if b1.state == HalfOpen then TransitionTo(b1, Closed, now) else b1
  }

  function RecordFailure(c: Config, b: Breaker, now: Time): Breaker {
    var b1 := b.(consecutiveSuccesses := 0, consecutiveFailures := b.consecutiveFailures + 1);
    match b1.state
    case Closed => if b1.consecutiveFailures >= c.failureThreshold then TransitionTo(b1, Open, now) else b1
    case HalfOpen => TransitionTo(b1, Open, now)
    case Open => b1
  }

  /** The report a finished response amounts to. */
  function Report(c: Config, b: Breaker, status: int, now: Time): Breaker {
    if status >= 500 then RecordFailure(c, b, now) else RecordSuccess(b, now)
  }

  // ---------------------------------------------------------------------------
  // A breaker and its requests
  // ---------------------------------------------------------------------------

  datatype Event =
    | Arrive(id: nat, now: Time)
    | Finish(id: nat, status: int, now: Time)

  /**
   `phases` lists the states entered so far; a phase is an index into it.
   `admitted` maps every request let through to the phase it was let through in,
   and `inFlight` is the part of it that has not reported.
   */
  datatype System = System(b: Breaker, phases: seq<State>, admitted: map<nat, int>, inFlight: set<nat>)

  const START := System(FRESH, [Closed], map[], {})

  function Entered(phases: seq<State>, before: State, after: State): seq<State> {
    if before == after then phases else phases + [after]
  }

  /**
   One request arrives or reports. Reports of requests that are not in flight and
   arrivals under a used number do not occur, and count as nothing happening.
   */
  function Next(c: Config, s: System, e: Event): System {
    match e
    case Arrive(id, now) =>
      if id in s.admitted then s
      else
        var (b', ok) := Allow(c, s.b, now);
        var phases' := Entered(s.phases, s.b.state, b'.state);
        if ok then System(b', phases', s.admitted[id := |phases'| - 1], s.inFlight + {id})
        else System(b', phases', s.admitted, s.inFlight)
    case Finish(id, status, now) =>
      if id !in s.inFlight then s
      else
        var b' := Report(c, s.b, status, now);
        System(b', Entered(s.phases, s.b.state, b'.state), s.admitted, s.inFlight - {id})
  }

  function After(c: Config, es: seq<Event>): System {
    if es == [] then START else Next(c, After(c, es[..|es| - 1]), es[|es| - 1])
  }

  /** The requests let through in one phase. */
  function AdmittedIn(s: System, phase: int): set<nat> {
    set id | id in s.admitted && s.admitted[id] == phase
  }

  function Current(s: System): int {
    |s.phases| - 1
  }

  // ---------------------------------------------------------------------------
  // What every interleaving keeps
  // ---------------------------------------------------------------------------

  predicate Edge(a: State, b: State) {
    (a == Closed && b == Open) || (a == Open && b == HalfOpen) || (a == HalfOpen && b != HalfOpen)
  }

  /** The states follow one another as the design allows. */
  ghost predicate Lawful(phases: seq<State>) {
    && phases != [] && phases[0] == Closed
    && forall i :: 0 < i < |phases| ==> Edge(phases[i - 1], phases[i])
  }

  /** At most this many requests pass in one phase of the given state. */
  ghost predicate WithinQuota(c: Config, s: System, phase: nat)
    requires phase < |s.phases|
  {
    match s.phases[phase]
    case Closed => true
    case Open => AdmittedIn(s, phase) == {}
    case HalfOpen => 1 <= |AdmittedIn(s, phase)| <= c.halfOpenMaxRequests + 1
  }

  ghost predicate Invariant(c: Config, s: System) {
    && Lawful(s.phases) && s.phases[Current(s)] == s.b.state
    && s.inFlight <= s.admitted.Keys
    && (forall id :: id in s.admitted ==> s.admitted[id] <= Current(s))
    && (forall p :: 0 <= p < |s.phases| ==> WithinQuota(c, s, p))
    && (s.b.state == HalfOpen ==>
          && AdmittedIn(s, Current(s)) <= s.inFlight
          && |AdmittedIn(s, Current(s))| == s.b.halfOpenRequests + 1)
    && (s.b.state != HalfOpen ==> s.b.halfOpenRequests == 0)
    && (s.b.state == Closed ==> 0 <= s.b.consecutiveFailures < c.failureThreshold)
    && s.b.consecutiveFailures >= 0
  }

  /** A request let through counts in its own phase and in no other. */
  lemma {:induction false} AdmissionCounts(s: System, s': System, id: nat, phase: int, p: int)
    requires id !in s.admitted && s'.admitted == s.admitted[id := phase]
    ensures AdmittedIn(s', p) == if p == phase then AdmittedIn(s, p) + {id} else AdmittedIn(s, p)
    ensures id !in AdmittedIn(s, p)
  {
  }

  lemma {:induction false} ArriveClosed(c: Config, s: System, id: nat, now: Time)
    requires c.Valid() && Invariant(c, s) && id !in s.admitted && s.b.state == Closed
    ensures Invariant(c, Next(c, s, Arrive(id, now)))
  {
    var s' := Next(c, s, Arrive(id, now));
    forall p | 0 <= p < |s'.phases| ensures WithinQuota(c, s', p) {
      AdmissionCounts(s, s', id, Current(s), p);
      assert WithinQuota(c, s, p);
    }
  }

  lemma {:induction false} ArriveCooledDown(c: Config, s: System, id: nat, now: Time)
    requires c.Valid() && Invariant(c, s) && id !in s.admitted
    requires s.b.state == Open && now - s.b.openedAt >= c.cooldown
    ensures Invariant(c, Next(c, s, Arrive(id, now)))
  {
    var s' := Next(c, s, Arrive(id, now));
    var cur := Current(s) + 1;
    AdmissionCounts(s, s', id, cur, cur);
    assert AdmittedIn(s, cur) == {};
    assert AdmittedIn(s', cur) == {id};
    forall p | 0 <= p < |s'.phases| ensures WithinQuota(c, s', p) {
      if p < cur {
        AdmissionCounts(s, s', id, cur, p);
        assert WithinQuota(c, s, p);
      }
    }
  }

  lemma {:induction false} ArriveHalfOpen(c: Config, s: System, id: nat, now: Time)
    requires c.Valid() && Invariant(c, s) && id !in s.admitted
    requires s.b.state == HalfOpen && s.b.halfOpenRequests < c.halfOpenMaxRequests
    ensures Invariant(c, Next(c, s, Arrive(id, now)))
  {
    var s' := Next(c, s, Arrive(id, now));
    AdmissionCounts(s, s', id, Current(s), Current(s));
    forall p | 0 <= p < |s'.phases| ensures WithinQuota(c, s', p) {
      AdmissionCounts(s, s', id, Current(s), p);
      assert WithinQuota(c, s, p);
    }
  }

  lemma {:induction false} ArriveKeeps(c: Config, s: System, id: nat, now: Time)
    requires c.Valid() && Invariant(c, s)
    ensures Invariant(c, Next(c, s, Arrive(id, now)))
  {
    if id !in s.admitted && Allow(c, s.b, now).1 {
      match s.b.state {
        case Closed => ArriveClosed(c, s, id, now);
        case Open => ArriveCooledDown(c, s, id, now);
        case HalfOpen => ArriveHalfOpen(c, s, id, now);
      }
    }
  }

  lemma {:induction false} FinishKeeps(c: Config, s: System, id: nat, status: int, now: Time)
    requires c.Valid() && Invariant(c, s)
    ensures Invariant(c, Next(c, s, Finish(id, status, now)))
  {
    var s' := Next(c, s, Finish(id, status, now));
    if id in s.inFlight {
      forall p | 0 <= p < |s'.phases| ensures WithinQuota(c, s', p) {
        assert AdmittedIn(s', p) == AdmittedIn(s, p);
        if p < |s.phases| {
          assert WithinQuota(c, s, p);
        } else {
          assert AdmittedIn(s, p) == {};
        }
      }
    }
  }

  lemma {:induction false} RunInvariant(c: Config, es: seq<Event>)
    requires c.Valid()
    ensures Invariant(c, After(c, es))
  {
    if es == [] {
      assert AdmittedIn(START, 0) == {};
    } else {
      var s, e := After(c, es[..|es| - 1]), es[|es| - 1];
      RunInvariant(c, es[..|es| - 1]);
      match e {
        case Arrive(id, now) => ArriveKeeps(c, s, id, now);
        case Finish(id, status, now) => FinishKeeps(c, s, id, status, now);
      }
    }
  }
}
