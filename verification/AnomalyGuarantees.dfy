/** When the anomaly detector warns, over every sequence of recorded events. */
module AnomalyGuarantees {
  import opened Common
  import opened Timeline
  import opened AnomalyDetector

  lemma {:induction false} SortedAppend(h: seq<Time>, now: Time)
    requires Sorted(h) && Until(h, now)
    ensures Sorted(h + [now]) && Until(h + [now], now)
  {
  }

  lemma {:induction false} HistoryExtend(es: seq<Event>, e: Event)
    ensures e.Evaluate? ==> Evaluations(es + [e], e.flag) == Evaluations(es, e.flag) + [e.now]
    ensures e.EvaluateIn? ==>
              var key := Pair(e.flag, e.context); KeyedEvaluations(es + [e], key) == KeyedEvaluations(es, key) + [e.now]
  {
    assert (es + [e])[..|es|] == es;
  }

  /** Appending and pruning yields exactly the flag's evaluations since the cutoff. */
  lemma {:induction false} RateRecorded(c: Config, on: bool, es: seq<Event>, flag: string, now: Time)
    requires Monotone(es) && (es != [] ==> es[|es| - 1].now <= now)
    ensures Recorded(After(c, on, es).rateBuckets, flag, now, c.rateWindow)
         == InSpan(Evaluations(es, flag) + [now], now - c.rateWindow, now)
  {
    var h := Evaluations(es, flag);
    assert Sorted(h + [now]) && Until(h + [now], now) by {
      HistorySorted(es, flag, now);
      SortedAppend(h, now);
    }
    RateTracks(c, on, es, flag, now);
    RecordedIsInSpan(After(c, on, es).rateBuckets, flag, h, now - c.rateWindow, now, c.rateWindow);
  }

  lemma {:induction false} ContextRecorded(c: Config, on: bool, es: seq<Event>, key: string, now: Time)
    requires Monotone(es) && (es != [] ==> es[|es| - 1].now <= now)
    ensures Recorded(After(c, on, es).ctxBuckets, key, now, c.contextWindow)
         == InSpan(KeyedEvaluations(es, key) + [now], now - c.contextWindow, now)
  {
    var h := KeyedEvaluations(es, key);
    assert Sorted(h + [now]) && Until(h + [now], now) by {
      HistorySorted(es, key, now);
      SortedAppend(h, now);
    }
    ContextTracks(c, on, es, key, now);
    RecordedIsInSpan(After(c, on, es).ctxBuckets, key, h, now - c.contextWindow, now, c.contextWindow);
  }

  /**
   The bucket an event leaves behind is exactly that key's evaluations since the
   cutoff: the flag's when it is evaluated, the joined key's when it is in a context.
   */
  lemma {:induction false} BucketsExact(c: Config, on: bool, es: seq<Event>, e: Event)
    requires Monotone(es) && (es != [] ==> es[|es| - 1].now <= e.now)
    ensures e.Evaluate? ==>
              Stored(After(c, on, es + [e]).rateBuckets, e.flag)
              == InSpan(Evaluations(es + [e], e.flag), e.now - c.rateWindow, e.now)
    ensures e.EvaluateIn? ==>
              Stored(After(c, on, es + [e]).ctxBuckets, Pair(e.flag, e.context))
              == InSpan(KeyedEvaluations(es + [e], Pair(e.flag, e.context)), e.now - c.contextWindow, e.now)
  {
    var d := After(c, on, es);
    HistoryExtend(es, e);
    if e.Evaluate? {
      assert Stored(After(c, on, es + [e]).rateBuckets, e.flag)
          == Recorded(d.rateBuckets, e.flag, e.now, c.rateWindow) by {
        StepBuckets(c, d, e);
      }
      RateRecorded(c, on, es, e.flag, e.now);
    } else if e.EvaluateIn? {
      assert Stored(After(c, on, es + [e]).ctxBuckets, Pair(e.flag, e.context))
          == Recorded(d.ctxBuckets, Pair(e.flag, e.context), e.now, c.contextWindow) by {
        StepBuckets(c, d, e);
      }
      ContextRecorded(c, on, es, Pair(e.flag, e.context), e.now);
    }
  }

  /** A step delivers what its state calls for, unless nobody listens or it is suppressed. */
  function Called(c: Config, d: Detector, e: Event): Option<Warning> {
    match e
    case Evaluate(flag, now) =>
      var n := |Recorded(d.rateBuckets, flag, now, c.rateWindow)|;
      if n >= c.rateThreshold then Some(Warning(Rate, flag, now, n)) else None
    case EvaluateIn(flag, context, now) =>
      var n := |Recorded(d.ctxBuckets, Pair(flag, context), now, c.contextWindow)|;
      if n >= c.contextThreshold then Some(Warning(Context, flag, now, n)) else None
    case Missing(flag, now) => if flag in d.seenFlags then Some(Warning(Drift, flag, now, 0)) else None
    case _ => None
  }

  lemma {:induction false} CalledIsWanted(c: Config, on: bool, es: seq<Event>, e: Event)
    requires Monotone(es) && (es != [] ==> es[|es| - 1].now <= e.now)
    ensures Called(c, After(c, on, es), e) == Wanted(c, es, e)
  {
    match e {
      case Evaluate(flag, now) => RateRecorded(c, on, es, flag, now);
      case EvaluateIn(flag, context, now) => ContextRecorded(c, on, es, Pair(flag, context), now);
      case Missing(flag, _) => FlagsTrack(c, on, es, flag);
      case _ =>
    }
  }

  /** The last delivery for a warning's code and flag was less than the interval ago. */
  predicate Suppressed(c: Config, on: bool, es: seq<Event>, w: Warning) {
    var last := LastDelivery(c, on, es, w.code, w.flagKey);
    last.Some? && w.timestamp - last.value < SUPPRESS_INTERVAL
  }

  /**
   An event delivers exactly the warning the history since the last reset calls for,
   unless no handler is set or the same code and flag was delivered too recently.
   */
  lemma {:induction false} DeliveredExactly(c: Config, on: bool, es: seq<Event>, i: nat)
    requires Monotone(es) && i < |es|
    ensures var w := Wanted(c, es[..i], es[i]);
            Delivered(c, on, es, i) ==
              if w.Some? && Listening(on, es[..i]) && !Suppressed(c, on, es[..i], w.value) then w else None
  {
    var before, e := es[..i], es[i];
    CalledIsWanted(c, on, before, e);
    FlagsTrack(c, on, before, "");
    var w := Wanted(c, before, e);
    if w.Some? {
      SuppressionTracks(c, on, before, w.value.code, w.value.flagKey);
    }
  }

  // ---------------------------------------------------------------------------
  // Spacing and coverage
  // ---------------------------------------------------------------------------

  ghost predicate NoReset(es: seq<Event>, from: nat) {
    forall k :: from <= k < |es| ==> !es[k].Reset?
  }

  /** Event `i` delivered a warning of this code for this flag, and no reset has followed. */
  ghost predicate Standing(c: Config, on: bool, es: seq<Event>, i: nat, code: Code, flag: string)
    requires i < |es|
  {
    var w := Delivered(c, on, es, i);
    w.Some? && w.value.code == code && w.value.flagKey == flag && NoReset(es, i)
  }

  lemma {:induction false} StandingExtend(c: Config, on: bool, es: seq<Event>, e: Event, i: nat, code: Code,
                                          flag: string)
    requires i < |es|
    ensures Standing(c, on, es + [e], i, code, flag) <==> Standing(c, on, es, i, code, flag) && !e.Reset?
  {
    var es' := es + [e];
    assert es'[..i] == es[..i] && es'[i] == es[i];
    if NoReset(es', i) {
      assert forall k :: i <= k < |es| ==> es'[k] == es[k];
      assert !es'[|es|].Reset?;
    }
  }

  /** The last delivery is one of the deliveries still standing. */
  lemma {:induction false} LastIsStanding(c: Config, on: bool, es: seq<Event>, code: Code, flag: string)
    returns (i: nat)
    requires LastDelivery(c, on, es, code, flag).Some?
    ensures i < |es| && Standing(c, on, es, i, code, flag)
    ensures es[i].now == LastDelivery(c, on, es, code, flag).value
  {
    var n := |es| - 1;
    assert es == es[..n] + [es[n]];
    var w := Delivered(c, on, es, n);
    if w.Some? && w.value.code == code && w.value.flagKey == flag {
      i := n;
    } else {
      i := LastIsStanding(c, on, es[..n], code, flag);
      StandingExtend(c, on, es[..n], es[n], i, code, flag);
    }
  }

  lemma {:induction false} LastDeliveryStep(c: Config, on: bool, es: seq<Event>, code: Code, flag: string)
    requires es != [] && !es[|es| - 1].Reset?
    ensures var n := |es| - 1;
            LastDelivery(c, on, es, code, flag) ==
              if Standing(c, on, es, n, code, flag) then Some(es[n].now)
              else LastDelivery(c, on, es[..n], code, flag)
  {
  }

  /** No delivery still standing is later than the last one. */
  lemma {:induction false} LastIsLatest(c: Config, on: bool, es: seq<Event>, i: nat, code: Code, flag: string)
    requires Monotone(es) && i < |es| && Standing(c, on, es, i, code, flag)
    ensures var last := LastDelivery(c, on, es, code, flag); last.Some? && es[i].now <= last.value
    decreases |es|
  {
    var n := |es| - 1;
    assert !es[n].Reset?;
    LastDeliveryStep(c, on, es, code, flag);
    assert es[i].now <= es[n].now;
    if i < n {
      assert Standing(c, on, es[..n], i, code, flag) by {
        assert es == es[..n] + [es[n]];
        StandingExtend(c, on, es[..n], es[n], i, code, flag);
      }
      assert Monotone(es[..n]);
      LastIsLatest(c, on, es[..n], i, code, flag);
    }
  }

  /** Two deliveries of one code and flag, with no reset in between, are at least the interval apart. */
  lemma {:induction false} WarningsSpaced(c: Config, on: bool, es: seq<Event>, i: nat, j: nat)
    requires Monotone(es) && i < j < |es|
    requires forall k :: i <= k < j ==> !es[k].Reset?
    requires Delivered(c, on, es, i).Some? && Delivered(c, on, es, j).Some?
    requires Delivered(c, on, es, i).value.code == Delivered(c, on, es, j).value.code
    requires Delivered(c, on, es, i).value.flagKey == Delivered(c, on, es, j).value.flagKey
    ensures es[j].now - es[i].now >= 30.0
  {
    var w, before := Delivered(c, on, es, i).value, es[..j];
    assert before[..i] == es[..i] && before[i] == es[i];
    assert Standing(c, on, before, i, w.code, w.flagKey);
    LastIsLatest(c, on, before, i, w.code, w.flagKey);
    DeliveredExactly(c, on, es, j);
    WantedNow(c, before, es[j]);
  }

  lemma {:induction false} WantedNow(c: Config, es: seq<Event>, e: Event)
    ensures var w := Wanted(c, es, e); w.Some? ==> w.value.timestamp == e.now
  {
  }

  /**
   Every event that calls for a warning while a handler is set either delivers it or
   follows, by less than the interval and with no reset in between, a delivered
   warning of the same code and flag.
   */
  lemma {:induction false} WarningsCovered(c: Config, on: bool, es: seq<Event>, j: nat)
    requires Monotone(es) && j < |es|
    requires Wanted(c, es[..j], es[j]).Some? && Listening(on, es[..j])
    ensures var w := Wanted(c, es[..j], es[j]).value;
            || Delivered(c, on, es, j) == Some(w)
            || exists i :: 0 <= i < j && Standing(c, on, es[..j], i, w.code, w.flagKey)
                           && 0.0 <= es[j].now - es[i].now < 30.0
  {
    var w := Wanted(c, es[..j], es[j]).value;
    DeliveredExactly(c, on, es, j);
    WantedNow(c, es[..j], es[j]);
    if Suppressed(c, on, es[..j], w) {
      var i := LastIsStanding(c, on, es[..j], w.code, w.flagKey);
      assert es[..j][i] == es[i];
      assert es[i].now <= es[j].now;
    }
  }

  // ---------------------------------------------------------------------------
  // Drift
  // ---------------------------------------------------------------------------

  /** A flag is remembered only if it was evaluated after event `i` missed it. */
  lemma {:induction false} SeenSinceMissing(es: seq<Event>, flag: string, i: nat)
    requires i < |es| && es[i].Missing? && es[i].flag == flag && Seen(es, flag)
    ensures exists k :: i < k < |es| && es[k].Evaluate? && es[k].flag == flag
    decreases |es|
  {
    var n := |es| - 1;
    if !(es[n].Evaluate? && es[n].flag == flag) {
      assert i < n;
      assert es[..n][i] == es[i];
      SeenSinceMissing(es[..n], flag, i);
      var k :| i < k < n && es[..n][k].Evaluate? && es[..n][k].flag == flag;
      assert es[k] == es[..n][k];
    }
  }

  /** Between two misses of a flag that call for a warning, it was evaluated again. */
  lemma {:induction false} DriftWarnsOncePerLoss(c: Config, es: seq<Event>, i: nat, j: nat)
    requires i < j < |es| && es[i].Missing? && es[j].Missing? && es[i].flag == es[j].flag
    requires Wanted(c, es[..j], es[j]).Some?
    ensures exists k :: i < k < j && es[k].Evaluate? && es[k].flag == es[i].flag
  {
    assert es[..j][i] == es[i];
    SeenSinceMissing(es[..j], es[i].flag, i);
    var k :| i < k < j && es[..j][k].Evaluate? && es[..j][k].flag == es[i].flag;
    assert es[k] == es[..j][k];
  }

  /** The drift window has no effect: flags are remembered for good. */
  lemma {:induction false} DriftWindowUnused(c1: Config, c2: Config, on: bool, es: seq<Event>, i: nat)
    requires c1 == c2.(driftWindow := c1.driftWindow)
    ensures After(c1, on, es) == After(c2, on, es)
    ensures i < |es| ==> Delivered(c1, on, es, i) == Delivered(c2, on, es, i)
    decreases |es|
  {
    if es != [] {
      DriftWindowUnused(c1, c2, on, es[..|es| - 1], 0);
    }
    if i < |es| {
      DriftWindowUnused(c1, c2, on, es[..i], 0);
    }
  }

  // ---------------------------------------------------------------------------
  // Settings that are not positive
  // ---------------------------------------------------------------------------

  /** `e` is an evaluation of the given kind, in order after `es`. */
  predicate EvaluatesAfter(es: seq<Event>, e: Event, inContext: bool) {
    && (if inContext then e.EvaluateIn? else e.Evaluate?)
    && (es != [] ==> es[|es| - 1].now <= e.now)
  }

  function WindowFor(c: Config, inContext: bool): real {
    if inContext then c.contextWindow else c.rateWindow
  }

  function ThresholdFor(c: Config, inContext: bool): int {
    if inContext then c.contextThreshold else c.rateThreshold
  }

  /** The earlier evaluations that one is counted with. */
  function HistoryFor(es: seq<Event>, e: Event, inContext: bool): seq<Time>
    requires if inContext then e.EvaluateIn? else e.Evaluate?
  {
    if inContext then KeyedEvaluations(es, Pair(e.flag, e.context)) else Evaluations(es, e.flag)
  }

  /** What an evaluation is compared with the threshold. */
  function CountFor(c: Config, es: seq<Event>, e: Event, inContext: bool): nat
    requires if inContext then e.EvaluateIn? else e.Evaluate?
  {
    |InSpan(HistoryFor(es, e, inContext) + [e.now], e.now - WindowFor(c, inContext), e.now)|
  }

  lemma {:induction false} WantedByCount(c: Config, es: seq<Event>, e: Event, inContext: bool)
    requires EvaluatesAfter(es, e, inContext)
    ensures Wanted(c, es, e).Some? <==> CountFor(c, es, e, inContext) >= ThresholdFor(c, inContext)
  {
  }

  /** An evaluation counts itself, unless the window is negative, when nothing counts. */
  lemma {:induction false} CountBounds(c: Config, es: seq<Event>, e: Event, inContext: bool)
    requires EvaluatesAfter(es, e, inContext)
    ensures WindowFor(c, inContext) >= 0.0 ==> CountFor(c, es, e, inContext) >= 1
    ensures WindowFor(c, inContext) < 0.0 ==> CountFor(c, es, e, inContext) == 0
  {
    var h := HistoryFor(es, e, inContext);
    var lo := e.now - WindowFor(c, inContext);
    InSpanAppend(h, e.now, lo, e.now);
    if WindowFor(c, inContext) < 0.0 {
      InSpanEmpty(h + [e.now], lo, e.now);
    }
  }

  /** `k` evaluations of one flag at time 0. */
  function Repeated(k: nat, inContext: bool): seq<Event> {
    if k == 0 then [] else Repeated(k - 1, inContext) + [One(inContext)]
  }

  function One(inContext: bool): Event {
    if inContext then EvaluateIn("", "", 0.0) else Evaluate("", 0.0)
  }

  function Zeros(k: nat): seq<Time> {
    if k == 0 then [] else Zeros(k - 1) + [0.0]
  }

  lemma {:induction false} ZerosCounted(k: nat, lo: Time)
    requires lo <= 0.0
    ensures |InSpan(Zeros(k), lo, 0.0)| == k
  {
    if k > 0 {
      ZerosCounted(k - 1, lo);
      InSpanAppend(Zeros(k - 1), 0.0, lo, 0.0);
    }
  }

  lemma {:induction false} RepeatedHistory(k: nat, inContext: bool)
    ensures HistoryFor(Repeated(k, inContext), One(inContext), inContext) == Zeros(k)
  {
    if k > 0 {
      RepeatedHistory(k - 1, inContext);
      HistoryExtend(Repeated(k - 1, inContext), One(inContext));
    }
  }

  lemma {:induction false} RepeatedCount(c: Config, k: nat, inContext: bool)
    requires WindowFor(c, inContext) >= 0.0
    ensures EvaluatesAfter(Repeated(k, inContext), One(inContext), inContext)
    ensures CountFor(c, Repeated(k, inContext), One(inContext), inContext) == k + 1
  {
    RepeatedHistory(k, inContext);
    ZerosCounted(k + 1, 0.0 - WindowFor(c, inContext));
    assert Zeros(k + 1) == Zeros(k) + [0.0];
  }

  /**
   Settings that are not positive are taken as they are: every evaluation calls for a
   warning exactly when the threshold is at most 0, or 1 with a window that is not negative.
   */
  lemma {:induction false} AlwaysWarnsIff(c: Config, inContext: bool)
    ensures (forall es: seq<Event>, e: Event :: EvaluatesAfter(es, e, inContext) ==> Wanted(c, es, e).Some?)
            <==> ThresholdFor(c, inContext) <= 0 || (ThresholdFor(c, inContext) == 1 && WindowFor(c, inContext) >= 0.0)
  {
    forall es: seq<Event>, e: Event | EvaluatesAfter(es, e, inContext)
      ensures Wanted(c, es, e).Some? <==> CountFor(c, es, e, inContext) >= ThresholdFor(c, inContext)
      ensures CountFor(c, es, e, inContext) >= if WindowFor(c, inContext) >= 0.0 then 1 else 0
    {
      WantedByCount(c, es, e, inContext);
      CountBounds(c, es, e, inContext);
    }
    assert EvaluatesAfter([], One(inContext), inContext);
    CountBounds(c, [], One(inContext), inContext);
    if WindowFor(c, inContext) >= 0.0 {
      RepeatedCount(c, 0, inContext);
    }
  }

  /** No evaluation ever calls for a warning exactly when the window is negative and the threshold positive. */
  lemma {:induction false} NeverWarnsIff(c: Config, inContext: bool)
    ensures (forall es: seq<Event>, e: Event :: EvaluatesAfter(es, e, inContext) ==> Wanted(c, es, e).None?)
            <==> ThresholdFor(c, inContext) > 0 && WindowFor(c, inContext) < 0.0
  {
    if ThresholdFor(c, inContext) > 0 && WindowFor(c, inContext) < 0.0 {
      forall es: seq<Event>, e: Event | EvaluatesAfter(es, e, inContext) ensures Wanted(c, es, e).None? {
        WantedByCount(c, es, e, inContext);
        CountBounds(c, es, e, inContext);
      }
    } else if ThresholdFor(c, inContext) <= 0 {
      WantedByCount(c, [], One(inContext), inContext);
      assert EvaluatesAfter([], One(inContext), inContext);
    } else {
      var k := ThresholdFor(c, inContext) - 1;
      RepeatedCount(c, k, inContext);
      WantedByCount(c, Repeated(k, inContext), One(inContext), inContext);
    }
  }
}
