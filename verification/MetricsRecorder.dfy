/** The request metrics as objects whose histograms change in place. */
module MetricsRecorder {
  import Spec = RequestMetrics

  class HistogramBuckets {
    var counts: seq<int> // aligned with the bounds
    var sum: real
    var count: int

    ghost function Value(): Spec.Histogram
      reads this
    {
      Spec.Histogram(counts, sum, count)
    }

    constructor ()
      ensures Value() == Spec.EMPTY
    {
      counts, sum, count := Spec.Zeros(|Spec.BOUNDS|), 0.0, 0;
    }

    /** One duration: every bucket whose bound it does not exceed goes up. */
    method Observe(d: real)
      requires |counts| == |Spec.BOUNDS|
      modifies this
      ensures Value() == Spec.Observe(old(Value()), d)
    {
      for i := 0 to |Spec.BOUNDS|
        invariant |counts| == |Spec.BOUNDS| && sum == old(sum) && count == old(count)
        invariant forall k :: 0 <= k < i ==>
                    counts[k] == if d <= Spec.BOUNDS[k] then old(counts)[k] + 1 else old(counts)[k]
        invariant forall k :: i <= k < |counts| ==> counts[k] == old(counts)[k]
      {
        if d <= Spec.BOUNDS[i] {
          counts := counts[i := counts[i] + 1];
        }
      }
      assert counts == Spec.Bump(old(counts), Spec.BOUNDS, d);
      sum := sum + d;
      count := count + 1;
    }
  }

  class Metrics {
    var requestsTotal: map<string, int>
    var requestDurations: map<string, HistogramBuckets>
    var requestDurationSum: map<string, real>

    /** Histograms are aligned with the bounds, and no two keys share one. */
    ghost predicate Valid()
      reads this, requestDurations.Values
    {
      && (forall k :: k in requestDurations ==> |requestDurations[k].counts| == |Spec.BOUNDS|)
      && (forall j, k ::
            j in requestDurations && k in requestDurations && requestDurations[j] == requestDurations[k] ==> j == k)
    }

    ghost function Histograms(): map<string, Spec.Histogram>
      reads this, requestDurations.Values
    {
      map k | k in requestDurations :: requestDurations[k].Value()
    }

    ghost function Value(): Spec.Metrics
      reads this, requestDurations.Values
    {
      Spec.Metrics(requestsTotal, requestDurationSum, Histograms())
    }

    constructor ()
      ensures Valid() && Value() == Spec.Metrics(map[], map[], map[])
    {
      requestsTotal, requestDurations, requestDurationSum := map[], map[], map[];
    }

    /** The first critical section of an observation. */
    method CountRequest(verb: string, host: string, status: int)
      requires Valid()
      modifies `requestsTotal
      ensures Valid()
      ensures Value() == Spec.CountedOnce(old(Value()), Spec.ReqKey(Spec.DurKey(verb, host), status))
    {
      var reqKey := verb + "|" + host + "|" + Spec.Itoa(status);
      requestsTotal := requestsTotal[reqKey := Spec.Get(requestsTotal, reqKey) + 1];
      assert Histograms() == old(Histograms());
    }

    /** Finds or makes the histogram of a key. */
    method HistogramFor(durKey: string) returns (hb: HistogramBuckets)
      requires Valid()
      modifies `requestDurations
      ensures Valid() && durKey in requestDurations && requestDurations[durKey] == hb
      ensures if durKey in old(requestDurations) then requestDurations == old(requestDurations)
              else requestDurations == old(requestDurations)[durKey := hb] && fresh(hb)
      ensures hb.Value() == Spec.HistogramOf(old(Value()), durKey)
    {
      if durKey in requestDurations {
        hb := requestDurations[durKey];
      } else {
        hb := new HistogramBuckets();
        requestDurations := requestDurations[durKey := hb];
      }
    }

    /** Observes a duration in the histogram of a key, and in no other. */
    method ObserveIn(durKey: string, d: real)
      requires Valid()
      modifies `requestDurations, requestDurations.Values
      ensures Valid() && fresh(requestDurations.Values - old(requestDurations.Values))
      ensures Histograms() == old(Histograms())[durKey := Spec.Observe(Spec.HistogramOf(old(Value()), durKey), d)]
    {
      var hb := HistogramFor(durKey);
      hb.Observe(d);
    }

    /** The second critical section. */
    method RecordDuration(verb: string, host: string, d: real)
      requires Valid()
      modifies this, requestDurations.Values
      ensures Valid() && fresh(requestDurations.Values - old(requestDurations.Values))
      ensures Value() == Spec.Recorded(old(Value()), Spec.DurKey(verb, host), d)
    {
      var durKey := verb + "|" + host;
      requestDurationSum :=
        requestDurationSum[durKey := (if durKey in requestDurationSum then requestDurationSum[durKey] else 0.0) + d];
      assert Valid() && Histograms() == old(Histograms());
      ObserveIn(durKey, d);
    }
  }
}
