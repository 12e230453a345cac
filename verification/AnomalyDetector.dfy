/**
 The anomaly detector: its steps, and what its warnings mean in terms of the
 evaluations since it was last reset.
 */
module AnomalyDetector {
  import opened Common
  import opened Timeline

  datatype Config = Config(rateWindow: real, rateThreshold: int,
                           contextWindow: real, contextThreshold: int, driftWindow: real)

  datatype Code = Rate | Context | Drift

  function CodeText(code: Code): string {
    match code
    case Rate => "RATE_ANOMALY"
    case Context => "CONTEXT_ANOMALY"
    case Drift => "DRIFT_ANOMALY"
  }

  /** `count` is the rate or the count given as detail; drift warnings have none. */
  datatype Warning = Warning(code: Code, flagKey: string, timestamp: Time, count: int)

  const SUPPRESS_INTERVAL := 30.0

  type Buckets = map<string, seq<Time>>

  datatype Detector = Detector(rateBuckets: Buckets, ctxBuckets: Buckets, seenFlags: set<string>,
                               suppressMap: map<string, Time>, listening: bool)

  function Fresh(listening: bool): Detector {
    Detector(map[], map[], {}, map[], listening)
  }

  datatype Event =
    | Evaluate(flag: string, now: Time)
    | EvaluateIn(flag: string, context: string, now: Time)
    | Missing(flag: string, now: Time)
    | SetHandler(listening: bool, now: Time)
    | Reset(now: Time)

  /** Two strings joined by a NUL. */
  function Pair(a: string, b: string): string {
    a + "\0" + b
  }

  function Stored(m: Buckets, key: string): seq<Time> {
    if key in m then m[key] else []
  }

  /** A bucket after one more evaluation and pruning. */
  function Recorded(m: Buckets, key: string, now: Time, window: real): seq<Time> {
    Expire(Stored(m, key) + [now], now - window)
  }

  function Emit(d: Detector, w: Warning): (Detector, Option<Warning>) {
    var key := Pair(CodeText(w.code), w.flagKey);
    if !d.listening then (d, None)
    else if key in d.suppressMap && w.timestamp - d.suppressMap[key] < SUPPRESS_INTERVAL then (d, None)
    else (d.(suppressMap := d.suppressMap[key := w.timestamp]), Some(w))
  }

  /** One event: the detector afterwards and the warning delivered, if any. */
  function Step(c: Config, d: Detector, e: Event): (Detector, Option<Warning>) {
    match e
    case Evaluate(flag, now) =>
      var bucket := Recorded(d.rateBuckets, flag, now, c.rateWindow);
      var d1 := d.(seenFlags := d.seenFlags + {flag}, rateBuckets := d.rateBuckets[flag := bucket]);
      if |bucket| >= c.rateThreshold then Emit(d1, Warning(Rate, flag, now, |bucket|)) else (d1, None)
    case EvaluateIn(flag, context, now) =>
      var key := Pair(flag, context);
      var bucket := Recorded(d.ctxBuckets, key, now, c.contextWindow);
      var d1 := d.(ctxBuckets := d.ctxBuckets[key := bucket]);
      if |bucket| >= c.contextThreshold then Emit(d1, Warning(Context, flag, now, |bucket|)) else (d1, None)
    case Missing(flag, now) =>
      if flag in d.seenFlags then
        var (d1, w) := Emit(d, Warning(Drift, flag, now, 0));
        (d1.(seenFlags := d1.seenFlags - {flag}), w)
      else (d, None)
    case SetHandler(listening, _) => (d.(listening := listening), None)
    case Reset(_) => (Fresh(d.listening), None)
  }

  function After(c: Config, on: bool, es: seq<Event>): Detector {
    if es == [] then Fresh(on) else Step(c, After(c, on, es[..|es| - 1]), es[|es| - 1]).0
  }

  /** The warning delivered at event `i`. */
  function Delivered(c: Config, on: bool, es: seq<Event>, i: nat): Option<Warning>
    requires i < |es|
  {
    Step(c, After(c, on, es[..i]), es[i]).1
  }

  ghost predicate Monotone(es: seq<Event>) {
    forall i, j :: 0 <= i < j < |es| ==> es[i].now <= es[j].now
  }

  // ---------------------------------------------------------------------------
  // The history since the last reset
  // ---------------------------------------------------------------------------

  /** The times at which a flag was evaluated. */
  function Evaluations(es: seq<Event>, flag: string): seq<Time> {
    if es == [] then []
    else
      var h, e := Evaluations(es[..|es| - 1], flag), es[|es| - 1];
      if e.Reset? then [] else if e.Evaluate? && e.flag == flag then h + [e.now] else h
  }

  /** The times at which some flag was evaluated in some context with the given joined key. */
  function KeyedEvaluations(es: seq<Event>, key: string): seq<Time> {
    if es == [] then []
    else
      var h, e := KeyedEvaluations(es[..|es| - 1], key), es[|es| - 1];
      if e.Reset? then [] else if e.EvaluateIn? && Pair(e.flag, e.context) == key then h + [e.now] else h
  }

  /** The flag was found, and has not been missed since. */
  predicate Seen(es: seq<Event>, flag: string) {
    es != []
    && var e := es[|es| - 1];
       if e.Evaluate? && e.flag == flag then true
       else if e.Reset? || (e.Missing? && e.flag == flag) then false
       else Seen(es[..|es| - 1], flag)
  }

  predicate Listening(on: bool, es: seq<Event>) {
    if es == [] then on
    else if es[|es| - 1].SetHandler? then es[|es| - 1].listening
    else Listening(on, es[..|es| - 1])
  }

  /** The warning an event calls for, decided from the history and the event alone. */
  function Wanted(c: Config, es: seq<Event>, e: Event): Option<Warning> {
    match e
    case Evaluate(flag, now) =>
      var n := |InSpan(Evaluations(es, flag) + [now], now - c.rateWindow, now)|;
      if n >= c.rateThreshold then Some(Warning(Rate, flag, now, n)) else None
    case EvaluateIn(flag, context, now) =>
      var n := |InSpan(KeyedEvaluations(es, Pair(flag, context)) + [now], now - c.contextWindow, now)|;
      if n >= c.contextThreshold then Some(Warning(Context, flag, now, n)) else None
    case Missing(flag, now) => if Seen(es, flag) then Some(Warning(Drift, flag, now, 0)) else None
    case _ => None
  }

  /** The time of the last warning delivered for a code and flag. */
  function LastDelivery(c: Config, on: bool, es: seq<Event>, code: Code, flag: string): Option<Time> {
    if es == [] then None
    else
      var before, e := es[..|es| - 1], es[|es| - 1];
      var w := Step(c, After(c, on, before), e).1;
      if e.Reset? then None
      else if w.Some? && w.value.code == code && w.value.flagKey == flag then Some(e.now)
      else LastDelivery(c, on, before, code, flag)
  }

  // ---------------------------------------------------------------------------
  // Joined keys
  // ---------------------------------------------------------------------------

  lemma {:induction false} PairPrefix(a: string, x: string, b: string, y: string)
    requires '\0' !in a && Pair(a, x) == Pair(b, y)
    ensures |a| <= |b|
  {
    var k := Pair(b, y);
    assert k[|b|] == '\0';
    assert forall i :: 0 <= i < |a| ==> k[i] == a[i];
  }

  /** Joined keys determine their parts as long as the first parts hold no NUL. */
  lemma {:induction false} PairInjective(a: string, x: string, b: string, y: string)
    requires '\0' !in a && '\0' !in b
    ensures Pair(a, x) == Pair(b, y) <==> a == b && x == y
  {
    if Pair(a, x) == Pair(b, y) {
      PairPrefix(a, x, b, y);
      PairPrefix(b, y, a, x);
      assert a == Pair(a, x)[..|a|] && b == Pair(b, y)[..|b|];
      assert x == Pair(a, x)[|a| + 1..] && y == Pair(b, y)[|b| + 1..];
    }
  }

  lemma {:induction false} CodeKeyInjective(c1: Code, f1: string, c2: Code, f2: string)
    ensures Pair(CodeText(c1), f1) == Pair(CodeText(c2), f2) <==> c1 == c2 && f1 == f2
  {
    PairInjective(CodeText(c1), f1, CodeText(c2), f2);
  }

  /**
   Two different flags can be counted together under some contexts exactly when one
   of them continues the other after a NUL.
   */
  lemma {:induction false} FlagsCollideIff(f1: string, f2: string)
    requires f1 != f2
    ensures (exists x: string, y: string :: Pair(f1, x) == Pair(f2, y)) <==> f1 + "\0" <= f2 || f2 + "\0" <= f1
  {
    if f1 + "\0" <= f2 {
      Continues(f1, f2);
    }
    if f2 + "\0" <= f1 {
      Continues(f2, f1);
    }
    if x, y :| Pair(f1, x) == Pair(f2, y) {
      assert Pair(f1, x)[..|f1|] == f1 && Pair(f2, y)[..|f2|] == f2;
      if |f1| < |f2| {
        assert Pair(f2, y)[..|f1| + 1] == f1 + "\0";
        assert f2[..|f1| + 1] == f1 + "\0";
      } else if |f2| < |f1| {
        assert Pair(f1, x)[..|f2| + 1] == f2 + "\0";
        assert f1[..|f2| + 1] == f2 + "\0";
      }
    }
  }

  lemma {:induction false} Continues(f1: string, f2: string)
    requires f1 + "\0" <= f2
    ensures exists x: string, y: string :: Pair(f1, x) == Pair(f2, y)
  {
    var rest := f2[|f1| + 1..];
    assert f2 == f1 + "\0" + rest;
    assert Pair(f1, rest + "\0" + "c") == Pair(f2, "c");
  }

  // ---------------------------------------------------------------------------
  // What every history keeps
  // ---------------------------------------------------------------------------

  lemma {:induction false} HistorySorted(es: seq<Event>, key: string, now: Time)
    requires Monotone(es) && (es != [] ==> es[|es| - 1].now <= now)
    ensures Sorted(Evaluations(es, key)) && Until(Evaluations(es, key), now)
    ensures Sorted(KeyedEvaluations(es, key)) && Until(KeyedEvaluations(es, key), now)
  {
    if es != [] {
      var n := |es| - 1;
      HistorySorted(es[..n], key, es[n].now);
    }
  }

  lemma {:induction false} RecordedIsInSpan(m: Buckets, key: string, h: seq<Time>, lo: Time, now: Time, window: real)
    requires Sorted(h + [now]) && Until(h + [now], now)
    requires Tracks(Stored(m, key), h, lo) && lo <= now - window
    ensures Recorded(m, key, now, window) == InSpan(h + [now], now - window, now)
    ensures Tracks(Recorded(m, key, now, window), h + [now], now - window)
  {
    TracksAppend(Stored(m, key), h, now, lo);
    ExpireIsInSpan(Stored(m, key) + [now], h + [now], lo, now - window, now);
  }

  /** What one event does to the buckets. */
  lemma {:induction false} StepBuckets(c: Config, d: Detector, e: Event)
    ensures Step(c, d, e).0.rateBuckets ==
              if e.Reset? then map[]
              else if e.Evaluate? then d.rateBuckets[e.flag := Recorded(d.rateBuckets, e.flag, e.now, c.rateWindow)]
              else d.rateBuckets
    ensures Step(c, d, e).0.ctxBuckets ==
              if e.Reset? then map[]
              else if e.EvaluateIn? then
                var key := Pair(e.flag, e.context);
                d.ctxBuckets[key := Recorded(d.ctxBuckets, key, e.now, c.contextWindow)]
              else d.ctxBuckets
  {
  }

  /** The rate buckets stand for the evaluations, at any time from the last event on. */
  lemma {:induction false} RateTracks(c: Config, on: bool, es: seq<Event>, flag: string, clock: Time)
    requires Monotone(es) && (es != [] ==> es[|es| - 1].now <= clock)
    ensures Tracks(Stored(After(c, on, es).rateBuckets, flag), Evaluations(es, flag), clock - c.rateWindow)
  {
    if es != [] {
      var before, e, w := es[..|es| - 1], es[|es| - 1], c.rateWindow;
      var m, h := After(c, on, before).rateBuckets, Evaluations(before, flag);
      assert before != [] ==> es[|es| - 2].now <= e.now;
      RateTracks(c, on, before, flag, e.now);
      StepBuckets(c, After(c, on, before), e);
      if e.Evaluate? && e.flag == flag {
        HistorySorted(es, flag, e.now);
        RecordedIsInSpan(m, flag, h, e.now - w, e.now, w);
      }
      TracksLater(Stored(After(c, on, es).rateBuckets, flag), Evaluations(es, flag), e.now - w, clock - w);
    }
  }

  /** The context buckets stand for the evaluations under their joined key. */
  lemma {:induction false} ContextTracks(c: Config, on: bool, es: seq<Event>, key: string, clock: Time)
    requires Monotone(es) && (es != [] ==> es[|es| - 1].now <= clock)
    ensures Tracks(Stored(After(c, on, es).ctxBuckets, key), KeyedEvaluations(es, key), clock - c.contextWindow)
  {
    if es != [] {
      var before, e, w := es[..|es| - 1], es[|es| - 1], c.contextWindow;
      var m, h := After(c, on, before).ctxBuckets, KeyedEvaluations(before, key);
      assert before != [] ==> es[|es| - 2].now <= e.now;
      ContextTracks(c, on, before, key, e.now);
      StepBuckets(c, After(c, on, before), e);
      if e.EvaluateIn? && Pair(e.flag, e.context) == key {
        HistorySorted(es, key, e.now);
        RecordedIsInSpan(m, key, h, e.now - w, e.now, w);
      }
      TracksLater(Stored(After(c, on, es).ctxBuckets, key), KeyedEvaluations(es, key), e.now - w, clock - w);
    }
  }

  lemma {:induction false} TracksLater(l: seq<Time>, h: seq<Time>, lo: Time, lo': Time)
    requires Tracks(l, h, lo) && lo <= lo'
    ensures Tracks(l, h, lo')
  {
    TracksTransitive(l, l, h, lo, lo');
  }

  lemma {:induction false} FlagsTrack(c: Config, on: bool, es: seq<Event>, flag: string)
    ensures flag in After(c, on, es).seenFlags <==> Seen(es, flag)
    ensures After(c, on, es).listening == Listening(on, es)
  {
    if es != [] {
      FlagsTrack(c, on, es[..|es| - 1], flag);
    }
  }

  /** What one event does to the suppression map. */
  lemma {:induction false} StepSuppression(c: Config, d: Detector, e: Event)
    ensures var (d', w) := Step(c, d, e);
            && d'.suppressMap == (if e.Reset? then map[]
                                  else if w.Some? then
                                    d.suppressMap[Pair(CodeText(w.value.code), w.value.flagKey) := e.now]
                                  else d.suppressMap)
            && (e.Reset? ==> w == None)
            && (w.Some? ==> w.value.timestamp == e.now)
  {
  }

  /** The suppression map holds the last delivery of each code and flag. */
  lemma {:induction false} SuppressionTracks(c: Config, on: bool, es: seq<Event>, code: Code, flag: string)
    ensures var m, key := After(c, on, es).suppressMap, Pair(CodeText(code), flag);
            LastDelivery(c, on, es, code, flag) == if key in m then Some(m[key]) else None
  {
    if es != [] {
      var before, e := es[..|es| - 1], es[|es| - 1];
      var d := After(c, on, before);
      SuppressionTracks(c, on, before, code, flag);
      StepSuppression(c, d, e);
      var w := Step(c, d, e).1;
      if w.Some? {
        CodeKeyInjective(code, flag, w.value.code, w.value.flagKey);
      }
    }
  }
}
