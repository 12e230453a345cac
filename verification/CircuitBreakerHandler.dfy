/** The circuit breaker, its metrics and its middleware as objects. */
module CircuitBreakerHandler {
  import opened Common
  import Spec = CircuitBreaker
  import Metrics = CircuitMetrics

  /** The circuit part of the router's metrics. */
  class CircuitGauges {
    var circuitOpenState: map<string, int>
    var circuitTransitions: map<string, int>

    ghost function Value(): Metrics.Gauges
      reads this
    {
      Metrics.Gauges(circuitOpenState, circuitTransitions)
    }

    constructor ()
      ensures Value() == Metrics.Gauges(map[], map[])
    {
      circuitOpenState, circuitTransitions := map[], map[];
    }

    method SetCircuitOpen(target: string, open: bool)
      modifies `circuitOpenState
      ensures circuitOpenState == old(circuitOpenState)[target := if open then 1 else 0]
    {
      if open {
        circuitOpenState := circuitOpenState[target := 1];
      } else {
        circuitOpenState := circuitOpenState[target := 0];
      }
    }

    method IncCircuitTransition(target: string, toState: string)
      modifies `circuitTransitions
      ensures var key := target + "|" + toState;
              circuitTransitions == old(circuitTransitions)[key := Metrics.Get(old(circuitTransitions), key) + 1]
    {
      var key := target + "|" + toState;
      circuitTransitions := circuitTransitions[key := Metrics.Get(circuitTransitions, key) + 1];
    }
  }

  class CircuitBreaker {
    const cfg: Spec.Config
    const target: string
    const gauges: CircuitGauges? // where transitions are noted, if anywhere

    var state: Spec.State
    var consecutiveFailures: int
    var consecutiveSuccesses: int
    var lastFailure: Time
    var openedAt: Time
    var halfOpenRequests: int

    ghost function Value(): Spec.Breaker
      reads this
    {
      Spec.Breaker(state, consecutiveFailures, consecutiveSuccesses, openedAt, halfOpenRequests)
    }

    /** The gauges after a step from breaker `b`: one note if the state changed. */
    twostate predicate Noted()
      reads this, gauges
    {
      gauges != null ==>
        gauges.Value() == if state == old(state) then old(gauges.Value())
                          else Metrics.Note(old(gauges.Value()), target, state)
    }

    constructor (target: string, cfg: Spec.Config, gauges: CircuitGauges?)
      ensures Value() == Spec.FRESH
      ensures this.target == target && this.gauges == gauges
      ensures this.cfg == Spec.Normalized(cfg)
    {
      this.target, this.gauges, this.cfg := target, gauges, Spec.Normalized(cfg);
      state := Spec.Closed;
      consecutiveFailures, consecutiveSuccesses, halfOpenRequests := 0, 0, 0;
      lastFailure, openedAt := 0.0, 0.0;
    }

    method TransitionTo(newState: Spec.State, now: Time)
      modifies this, gauges
      ensures Value() == Spec.TransitionTo(old(Value()), newState, now) && lastFailure == old(lastFailure)
      ensures newState == Spec.Closed ==> consecutiveFailures == 0
      ensures gauges != null ==> gauges.Value() == Metrics.Note(old(gauges.Value()), target, newState)
    {
      state := newState;
      halfOpenRequests := 0;
      if newState == Spec.Open {
        openedAt := now;
      }
      if newState == Spec.Closed {
        consecutiveFailures := 0;
      }
      if gauges != null {
        gauges.IncCircuitTransition(target, Spec.Label(newState));
        gauges.SetCircuitOpen(target, newState == Spec.Open);
      }
    }

    method Allow(now: Time) returns (ok: bool)
      modifies this, gauges
      ensures (Value(), ok) == Spec.Allow(cfg, old(Value()), now) && lastFailure == old(lastFailure)
      ensures Noted()
    {
      match state {
        case Closed =>
          ok := true;
        case Open =>
          if now - openedAt >= cfg.cooldown {
            TransitionTo(Spec.HalfOpen, now);
            ok := true;
          } else {
            ok := false;
          }
        case HalfOpen =>
          if halfOpenRequests < cfg.halfOpenMaxRequests {
            halfOpenRequests := halfOpenRequests + 1;
            ok := true;
          } else {
            ok := false;
          }
      }
    }

    method RecordSuccess(now: Time)
      modifies this, gauges
      ensures Value() == Spec.RecordSuccess(old(Value()), now) && lastFailure == old(lastFailure)
      ensures state == if old(state) == Spec.HalfOpen then Spec.Closed else old(state)
      ensures Noted()
    {
      consecutiveFailures := 0;
      consecutiveSuccesses := consecutiveSuccesses + 1;
      if state == Spec.HalfOpen {
        TransitionTo(Spec.Closed, now);
      }
    }

    method RecordFailure(now: Time)
      modifies this, gauges
      ensures Value() == Spec.RecordFailure(cfg, old(Value()), now) && lastFailure == now
      ensures old(state) != Spec.Closed ==> state == Spec.Open
      ensures old(state) == Spec.Closed ==>
                state == if old(consecutiveFailures) + 1 >= cfg.failureThreshold then Spec.Open else Spec.Closed
      ensures Noted()
    {
      consecutiveSuccesses := 0;
      consecutiveFailures := consecutiveFailures + 1;
      lastFailure := now;
      match state {
        case Closed =>
          if consecutiveFailures >= cfg.failureThreshold {
            TransitionTo(Spec.Open, now);
          }
        case HalfOpen =>
          TransitionTo(Spec.Open, now);
        case Open =>
      }
    }
  }

  /**
   The middleware around one breaker. Every request it lets through reports exactly
   once, at any later time; `trace` is the interleaving seen so far.
   */
  class Handler {
    const cb: CircuitBreaker
    ghost var trace: seq<Spec.Event>

    ghost function System(): Spec.System
      reads this
    {
      Spec.After(cb.cfg, trace)
    }

    ghost predicate Valid()
      reads this, cb
    {
      cb.cfg.Valid() && cb.Value() == System().b
    }

    constructor (cb: CircuitBreaker)
      requires cb.cfg.Valid() && cb.Value() == Spec.FRESH
      ensures Valid() && this.cb == cb && trace == []
    {
      this.cb := cb;
      trace := [];
    }

    /** A request arrives; it is served when `ok`, and answered 503 otherwise. */
    method Begin(ghost id: nat, now: Time) returns (ok: bool)
      requires Valid() && id !in System().admitted
      modifies this, cb, cb.gauges
      ensures Valid() && trace == old(trace) + [Spec.Arrive(id, now)]
      ensures ok <==> id in System().admitted
      ensures System().inFlight == old(System().inFlight) + if ok then {id} else {}
    {
      ok := cb.Allow(now);
      trace := trace + [Spec.Arrive(id, now)];
    }

    /** A served request finishes with a status code, 0 if it wrote nothing. */
    method End(ghost id: nat, statusCode: int, now: Time)
      requires Valid() && id in System().inFlight
      modifies this, cb, cb.gauges
      ensures Valid() && trace == old(trace) + [Spec.Finish(id, statusCode, now)]
      ensures System().inFlight == old(System().inFlight) - {id}
    {
      if statusCode >= 500 {
        cb.RecordFailure(now);
      } else {
        cb.RecordSuccess(now);
      }
      trace := trace + [Spec.Finish(id, statusCode, now)];
    }
  }
}
