/** The anomaly detector as an object that updates its maps in place. */
module AnomalyRecorder {
  import opened Common
  import opened Timeline
  import Spec = AnomalyDetector

  const DEFAULTS := Spec.Config(1.0, 1000, 10.0, 100, 300.0)

  class AnomalyDetector {
    const cfg: Spec.Config
    var listening: bool // whether a handler is set
    var rateBuckets: map<string, seq<Time>>
    var ctxBuckets: map<string, seq<Time>>
    var seenFlags: set<string>
    var suppressMap: map<string, Time>
    var delivered: seq<Spec.Warning> // what the handler has been called with

    // Everything recorded so far, and whether a handler was set at the start.
    ghost var trace: seq<Spec.Event>
    ghost const started: bool

    ghost function Value(): Spec.Detector
      reads this
    {
      Spec.Detector(rateBuckets, ctxBuckets, seenFlags, suppressMap, listening)
    }

    ghost predicate Valid()
      reads this
    {
      Value() == Spec.After(cfg, started, trace)
    }

    constructor (cfg: Option<Spec.Config>, listening: bool)
      ensures Valid() && trace == [] && delivered == []
      ensures this.cfg == (if cfg.Some? then cfg.value else DEFAULTS) && this.started == listening
    {
      this.cfg := if cfg.Some? then cfg.value else DEFAULTS;
      this.listening, this.started := listening, listening;
      rateBuckets, ctxBuckets, seenFlags, suppressMap := map[], map[], {}, map[];
      delivered, trace := [], [];
    }

    /** Drops the timestamps of one bucket from before the window. */
    static method PruneBucket(buckets: map<string, seq<Time>>, key: string, now: Time, window: real)
      returns (pruned: map<string, seq<Time>>)
      requires key in buckets
      ensures pruned == buckets[key := Expire(buckets[key], now - window)]
    {
      var times := buckets[key];
      var cutoff := now - window;
      var i := 0;
      while i < |times| && times[i] < cutoff
        invariant 0 <= i <= |times|
        invariant Expire(times[i..], cutoff) == Expire(times, cutoff)
      {
        assert times[i..][1..] == times[i + 1..];
        i := i + 1;
      }
      assert Expire(times[i..], cutoff) == times[i..];
      pruned := if i > 0 then buckets[key := times[i..]] else buckets;
    }

    /** Calls the handler unless there is none or the same code and flag was reported too recently. */
    method EmitLocked(w: Spec.Warning)
      modifies `suppressMap, `delivered
      ensures Value() == Spec.Emit(old(Value()), w).0
      ensures delivered == old(delivered) + Sent(Spec.Emit(old(Value()), w).1)
    {
      if !listening {
        return;
      }
      var suppressKey := Spec.Pair(Spec.CodeText(w.code), w.flagKey);
      if suppressKey in suppressMap && w.timestamp - suppressMap[suppressKey] < Spec.SUPPRESS_INTERVAL {
        return;
      }
      suppressMap := suppressMap[suppressKey := w.timestamp];
      delivered := delivered + [w];
    }

    method RecordEvaluation(flagKey: string, now: Time)
      requires Valid()
      modifies this
      ensures Valid() && trace == old(trace) + [Spec.Evaluate(flagKey, now)]
      ensures delivered == old(delivered) + Sent(Spec.Delivered(cfg, started, trace, |old(trace)|))
    {
      seenFlags := seenFlags + {flagKey};
      rateBuckets := rateBuckets[flagKey := Spec.Stored(rateBuckets, flagKey) + [now]];
      rateBuckets := PruneBucket(rateBuckets, flagKey, now, cfg.rateWindow);
      assert rateBuckets == old(rateBuckets)[flagKey := Spec.Recorded(old(rateBuckets), flagKey, now, cfg.rateWindow)];
      if |rateBuckets[flagKey]| >= cfg.rateThreshold {
        EmitLocked(Spec.Warning(Spec.Rate, flagKey, now, |rateBuckets[flagKey]|));
      }
      Note(Spec.Evaluate(flagKey, now), old(Value()));
    }

    method RecordEvaluationWithContext(flagKey: string, contextKey: string, now: Time)
      requires Valid()
      modifies this
      ensures Valid() && trace == old(trace) + [Spec.EvaluateIn(flagKey, contextKey, now)]
      ensures delivered == old(delivered) + Sent(Spec.Delivered(cfg, started, trace, |old(trace)|))
    {
      var composite := Spec.Pair(flagKey, contextKey);
      ctxBuckets := ctxBuckets[composite := Spec.Stored(ctxBuckets, composite) + [now]];
      ctxBuckets := PruneBucket(ctxBuckets, composite, now, cfg.contextWindow);
      assert ctxBuckets
          == old(ctxBuckets)[composite := Spec.Recorded(old(ctxBuckets), composite, now, cfg.contextWindow)];
      if |ctxBuckets[composite]| >= cfg.contextThreshold {
        EmitLocked(Spec.Warning(Spec.Context, flagKey, now, |ctxBuckets[composite]|));
      }
      Note(Spec.EvaluateIn(flagKey, contextKey, now), old(Value()));
    }

    method RecordMissing(flagKey: string, now: Time)
      requires Valid()
      modifies this
      ensures Valid() && trace == old(trace) + [Spec.Missing(flagKey, now)]
      ensures delivered == old(delivered) + Sent(Spec.Delivered(cfg, started, trace, |old(trace)|))
    {
      if flagKey in seenFlags {
        EmitLocked(Spec.Warning(Spec.Drift, flagKey, now, 0));
        seenFlags := seenFlags - {flagKey};
      }
      Note(Spec.Missing(flagKey, now), old(Value()));
    }

    method SetHandler(listening: bool, ghost now: Time)
      requires Valid()
      modifies this
      ensures Valid() && trace == old(trace) + [Spec.SetHandler(listening, now)]
      ensures delivered == old(delivered)
    {
      this.listening := listening;
      Note(Spec.SetHandler(listening, now), old(Value()));
    }

    method Reset(ghost now: Time)
      requires Valid()
      modifies this
      ensures Valid() && trace == old(trace) + [Spec.Reset(now)]
      ensures delivered == old(delivered)
    {
      rateBuckets, ctxBuckets, seenFlags, suppressMap := map[], map[], {}, map[];
      Note(Spec.Reset(now), old(Value()));
    }

    /** Notes that `e` led from `before` to the current state. */
    ghost method Note(e: Spec.Event, before: Spec.Detector)
      requires before == Spec.After(cfg, started, trace)
      requires Value() == Spec.Step(cfg, before, e).0
      modifies `trace
      ensures Valid() && trace == old(trace) + [e]
      ensures Spec.Delivered(cfg, started, trace, |old(trace)|) == Spec.Step(cfg, before, e).1
    {
      trace := trace + [e];
      assert trace[..|trace| - 1] == old(trace);
    }
  }

  /** The handler calls an optional warning amounts to. */
  function Sent(w: Option<Spec.Warning>): seq<Spec.Warning> {
    match w
    case None => []
    case Some(warning) => [warning]
  }
}
