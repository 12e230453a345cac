/** When an event calls for a warning, told by positions in the recorded events. */
module AnomalyCounts {
  import opened Common
  import opened Timeline
  import opened AnomalyDetector
  import opened AnomalyGuarantees

  // ---------------------------------------------------------------------------
  // Missing flags
  // ---------------------------------------------------------------------------

  /** Event `k` evaluates the flag, and nothing has made the detector forget it since. */
  ghost predicate SeenAt(es: seq<Event>, flag: string, k: nat) {
    && k < |es| && es[k].Evaluate? && es[k].flag == flag
    && forall l :: k < l < |es| ==> !es[l].Reset? && !(es[l].Missing? && es[l].flag == flag)
  }

  lemma {:induction false} SeenIff(es: seq<Event>, flag: string)
    ensures Seen(es, flag) <==> exists k: nat :: SeenAt(es, flag, k)
  {
    if es != [] {
      var init, e := es[..|es| - 1], es[|es| - 1];
      SeenIff(init, flag);
      if k: nat :| SeenAt(init, flag, k) {
        assert es[k] == init[k];
        if !e.Reset? && !(e.Missing? && e.flag == flag) {
          forall l | k < l < |es| ensures !es[l].Reset? && !(es[l].Missing? && es[l].flag == flag) {
            assert l < |init| ==> es[l] == init[l];
          }
          assert SeenAt(es, flag, k);
        }
      }
      if e.Evaluate? && e.flag == flag {
        assert SeenAt(es, flag, |es| - 1);
      }
      if k: nat :| SeenAt(es, flag, k) && k < |init| {
        forall l | k < l < |init| ensures !init[l].Reset? && !(init[l].Missing? && init[l].flag == flag) {
          assert init[l] == es[l];
        }
        assert SeenAt(init, flag, k);
      }
    }
  }

  /** A miss calls for a warning exactly when the flag was evaluated and neither missed nor forgotten since. */
  lemma {:induction false} DriftWarnsIff(c: Config, es: seq<Event>, e: Event)
    requires e.Missing?
    ensures Wanted(c, es, e) ==
              if exists k: nat :: SeenAt(es, e.flag, k) then Some(Warning(Drift, e.flag, e.now, 0)) else None
  {
    SeenIff(es, e.flag);
  }

  // ---------------------------------------------------------------------------
  // Codes
  // ---------------------------------------------------------------------------

  /** When a code and flag last went out is kept under the code's name, a NUL and the flag. */
  lemma {:induction false} SuppressionByName(c: Config, on: bool, es: seq<Event>, flag: string)
    ensures var m := After(c, on, es).suppressMap;
            && LastDelivery(c, on, es, Rate, flag) == Lookup(m, "RATE_ANOMALY" + "\0" + flag)
            && LastDelivery(c, on, es, Context, flag) == Lookup(m, "CONTEXT_ANOMALY" + "\0" + flag)
            && LastDelivery(c, on, es, Drift, flag) == Lookup(m, "DRIFT_ANOMALY" + "\0" + flag)
  {
    SuppressionTracks(c, on, es, Rate, flag);
    SuppressionTracks(c, on, es, Context, flag);
    SuppressionTracks(c, on, es, Drift, flag);
  }

  function Lookup(m: map<string, Time>, key: string): Option<Time> {
    if key in m then Some(m[key]) else None
  }

  // ---------------------------------------------------------------------------
  // Which evaluations count
  // ---------------------------------------------------------------------------

  /** The evaluations of a flag (in a context) since the last reset and not before `lo`, by position. */
  ghost function Positions(es: seq<Event>, same: Event -> bool, lo: Time): set<int> {
    set k | 0 <= k < |es| && same(es[k]) && es[k].now >= lo && NoReset(es, k)
  }

  function SameFlag(flag: string): Event -> bool {
    (e: Event) => e.Evaluate? && e.flag == flag
  }

  function SameContext(flag: string, context: string): Event -> bool {
    (e: Event) => e.EvaluateIn? && e.flag == flag && e.context == context
  }

  function SameKey(key: string): Event -> bool {
    (e: Event) => e.EvaluateIn? && Pair(e.flag, e.context) == key
  }

  lemma {:induction false} NoResetExtend(es: seq<Event>, e: Event, k: nat)
    requires k <= |es|
    ensures NoReset(es + [e], k) <==> NoReset(es, k) && !e.Reset?
  {
    var es' := es + [e];
    if NoReset(es', k) {
      assert !es'[|es|].Reset?;
      assert forall l :: k <= l < |es| ==> es[l] == es'[l];
    }
  }

  lemma {:induction false} PositionsExtend(es: seq<Event>, e: Event, same: Event -> bool, lo: Time)
    requires !same(e) || !e.Reset?
    ensures |Positions(es + [e], same, lo)|
         == if e.Reset? then 0 else |Positions(es, same, lo)| + if same(e) && e.now >= lo then 1 else 0
  {
    var before, after := Positions(es, same, lo), Positions(es + [e], same, lo);
    var last: set<int> := if same(e) && e.now >= lo then {|es|} else {};
    forall k | 0 <= k <= |es| ensures k in after <==> !e.Reset? && (k in before || k in last) {
      NoResetExtend(es, e, k);
      assert (es + [e])[k] == if k < |es| then es[k] else e;
      assert k == |es| ==> NoReset(es, k);
    }
    assert after == if e.Reset? then {} else before + last;
  }

  lemma {:induction false} EvaluationsNext(es: seq<Event>, e: Event, key: string)
    ensures Evaluations(es + [e], key) ==
              if e.Reset? then [] else Evaluations(es, key) + if SameFlag(key)(e) then [e.now] else []
    ensures KeyedEvaluations(es + [e], key) ==
              if e.Reset? then [] else KeyedEvaluations(es, key) + if SameKey(key)(e) then [e.now] else []
  {
    assert (es + [e])[..|es|] == es;
  }

  lemma {:induction false} SpanNext(h: seq<Time>, now: Time, counts: bool, lo: Time, hi: Time)
    requires now <= hi
    ensures |InSpan(h + if counts then [now] else [], lo, hi)|
         == |InSpan(h, lo, hi)| + if counts && now >= lo then 1 else 0
  {
    assert h + [] == h;
    InSpanAppend(h, now, lo, hi);
  }

  /** In a span up to the present, histories count the positions. */
  lemma {:induction false} CountsArePositions(es: seq<Event>, key: string, lo: Time, hi: Time)
    requires forall k :: 0 <= k < |es| ==> es[k].now <= hi
    ensures |InSpan(Evaluations(es, key), lo, hi)| == |Positions(es, SameFlag(key), lo)|
    ensures |InSpan(KeyedEvaluations(es, key), lo, hi)| == |Positions(es, SameKey(key), lo)|
  {
    if es == [] {
      assert Positions(es, SameFlag(key), lo) == {} && Positions(es, SameKey(key), lo) == {};
    } else {
      var init, e := es[..|es| - 1], es[|es| - 1];
      CountsArePositions(init, key, lo, hi);
      CountNext(init, e, key, lo, hi);
      assert es == init + [e];
    }
  }

  lemma {:induction false} CountNext(init: seq<Event>, e: Event, key: string, lo: Time, hi: Time)
    requires e.now <= hi
    requires |InSpan(Evaluations(init, key), lo, hi)| == |Positions(init, SameFlag(key), lo)|
    requires |InSpan(KeyedEvaluations(init, key), lo, hi)| == |Positions(init, SameKey(key), lo)|
    ensures |InSpan(Evaluations(init + [e], key), lo, hi)| == |Positions(init + [e], SameFlag(key), lo)|
    ensures |InSpan(KeyedEvaluations(init + [e], key), lo, hi)| == |Positions(init + [e], SameKey(key), lo)|
  {
    EvaluationsNext(init, e, key);
    PositionsExtend(init, e, SameFlag(key), lo);
    PositionsExtend(init, e, SameKey(key), lo);
    SpanNext(Evaluations(init, key), e.now, SameFlag(key)(e), lo, hi);
    SpanNext(KeyedEvaluations(init, key), e.now, SameKey(key)(e), lo, hi);
  }

  /** What an evaluation calls for, given how many it is counted with. */
  function AtThreshold(code: Code, flag: string, now: Time, n: int, threshold: int): Option<Warning> {
    if n >= threshold then Some(Warning(code, flag, now, n)) else None
  }

  /**
   An evaluation calls for a rate warning exactly when the evaluations of that flag
   since the last reset and in the last `rateWindow`, itself included, are at least
   `rateThreshold`; the warning tells how many.
   */
  lemma {:induction false} RateWarnsIff(c: Config, es: seq<Event>, e: Event)
    requires Monotone(es + [e]) && e.Evaluate?
    ensures var n := |Positions(es + [e], SameFlag(e.flag), e.now - c.rateWindow)|;
            Wanted(c, es, e) == AtThreshold(Rate, e.flag, e.now, n, c.rateThreshold)
  {
    HistoryExtend(es, e);
    CountsArePositions(es + [e], e.flag, e.now - c.rateWindow, e.now);
  }

  /** No other flag evaluated in some context can share a joined key with this one. */
  ghost predicate Uncollided(es: seq<Event>, flag: string) {
    forall k :: 0 <= k < |es| && es[k].EvaluateIn? && es[k].flag != flag ==>
      !(es[k].flag + "\0" <= flag) && !(flag + "\0" <= es[k].flag)
  }

  lemma {:induction false} SamePrefix(a: string, x: string, y: string)
    ensures Pair(a, x) == Pair(a, y) <==> x == y
  {
    assert Pair(a, x)[|a| + 1..] == x && Pair(a, y)[|a| + 1..] == y;
  }

  /**
   As long as no flag continues another after a NUL, an evaluation calls for a context
   warning exactly when those of that flag in that context since the last reset and in
   the last `contextWindow`, itself included, are at least `contextThreshold`.
   */
  lemma {:induction false} ContextWarnsIff(c: Config, es: seq<Event>, e: Event)
    requires Monotone(es + [e]) && e.EvaluateIn? && Uncollided(es, e.flag)
    ensures var n := |Positions(es + [e], SameContext(e.flag, e.context), e.now - c.contextWindow)|;
            Wanted(c, es, e) == AtThreshold(Context, e.flag, e.now, n, c.contextThreshold)
  {
    var all, lo := es + [e], e.now - c.contextWindow;
    var key := Pair(e.flag, e.context);
    assert all[|es|] == e;
    HistoryExtend(es, e);
    CountsArePositions(all, key, lo, e.now);
    forall k | 0 <= k < |all| ensures SameKey(key)(all[k]) <==> SameContext(e.flag, e.context)(all[k]) {
      if k < |es| && all[k].EvaluateIn? {
        assert all[k] == es[k];
        if es[k].flag != e.flag {
          FlagsCollideIff(es[k].flag, e.flag);
        } else {
          SamePrefix(e.flag, es[k].context, e.context);
        }
      }
    }
    assert Positions(all, SameKey(key), lo) == Positions(all, SameContext(e.flag, e.context), lo);
  }
}
