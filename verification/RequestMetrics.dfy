/**
 The request metrics: a counter per method, host and status, and a latency
 histogram per method and host. One observation updates them in two separate
 critical sections, so others can run in between.
 */
module RequestMetrics {
  import opened Common
  import opened MetricsKeys

  const BOUNDS: seq<real> := [0.005, 0.01, 0.025, 0.05, 0.1, 0.25, 0.5, 1.0, 2.5, 5.0, 10.0]

  datatype Histogram = Histogram(counts: seq<int>, sum: real, count: int)

  const EMPTY := Histogram(Zeros(|BOUNDS|), 0.0, 0)

  /** `requestsTotal`, `requestDurationSum` and `requestDurations`. */
  datatype Metrics = Metrics(totals: map<string, int>, sums: map<string, real>, durations: map<string, Histogram>)

  function Zeros(n: nat): (zs: seq<int>)
    ensures |zs| == n && forall i :: 0 <= i < n ==> zs[i] == 0
  {
    if n == 0 then [] else [0] + Zeros(n - 1)
  }

  function Itoa(n: int): string {
    if n < 0 then "-" + Digits(-n) else Digits(n)
  }

  function DurKey(verb: string, host: string): string {
    verb + "|" + host
  }

  function ReqKey(durKey: string, status: int): string {
    durKey + "|" + Itoa(status)
  }

  function Get(m: map<string, int>, k: string): int {
    if k in m then m[k] else 0
  }

  /** The histogram of a key; a key without one has observed nothing. */
  function HistogramOf(m: Metrics, durKey: string): Histogram {
    if durKey in m.durations then m.durations[durKey] else EMPTY
  }

  /** One more in every bucket whose bound the duration does not exceed. */
  function Bump(counts: seq<int>, bounds: seq<real>, d: real): (bumped: seq<int>)
    ensures |bumped| == |counts|
    ensures forall i :: 0 <= i < |counts| && i < |bounds| ==>
              bumped[i] == if d <= bounds[i] then counts[i] + 1 else counts[i]
  {
    if counts == [] || bounds == [] then counts
    else [if d <= bounds[0] then counts[0] + 1 else counts[0]] + Bump(counts[1..], bounds[1..], d)
  }

  function Observe(h: Histogram, d: real): Histogram {
    Histogram(Bump(h.counts, BOUNDS, d), h.sum + d, h.count + 1)
  }

  function SumOf(m: Metrics, durKey: string): real {
    if durKey in m.sums then m.sums[durKey] else 0.0
  }

  /** The two critical sections of one observation. */
  datatype Event =
    | Count(id: nat, verb: string, host: string, status: int)
    | Record(id: nat, duration: real)

  /** The metrics, and the key of each observation between its two sections. */
  datatype System = System(m: Metrics, pending: map<nat, string>)

  function CountedOnce(m: Metrics, reqKey: string): Metrics {
    m.(totals := m.totals[reqKey := Get(m.totals, reqKey) + 1])
  }

  function Recorded(m: Metrics, durKey: string, d: real): Metrics {
    m.(sums := m.sums[durKey := SumOf(m, durKey) + d],
       durations := m.durations[durKey := Observe(HistogramOf(m, durKey), d)])
  }

  /**
   One critical section. A number that is already in use does not count again, and
   one that is not pending records nothing: neither occurs.
   */
  function Next(s: System, e: Event): System {
    match e
    case Count(id, verb, host, status) =>
      if id in s.pending then s
      else
        var durKey := DurKey(verb, host);
        System(CountedOnce(s.m, ReqKey(durKey, status)), s.pending[id := durKey])
    case Record(id, duration) =>
      if id !in s.pending then s
      else
        var k := s.pending[id];
        System(Recorded(s.m, k, duration), s.pending - {id})
  }

  function After(es: seq<Event>): System {
    if es == [] then System(Metrics(map[], map[], map[]), map[])
    else Next(After(es[..|es| - 1]), es[|es| - 1])
  }

  // ---------------------------------------------------------------------------
  // Histograms
  // ---------------------------------------------------------------------------

  /** The durations recorded under a key, in order. */
  function Durations(es: seq<Event>, durKey: string): seq<real> {
    if es == [] then []
    else
      var s, e := After(es[..|es| - 1]), es[|es| - 1];
      Durations(es[..|es| - 1], durKey)
      + if e.Record? && e.id in s.pending && s.pending[e.id] == durKey then [e.duration] else []
  }

  function AtMost(ds: seq<real>, bound: real): nat {
    if ds == [] then 0 else AtMost(ds[..|ds| - 1], bound) + if ds[|ds| - 1] <= bound then 1 else 0
  }

  function Sum(ds: seq<real>): real {
    if ds == [] then 0.0 else Sum(ds[..|ds| - 1]) + ds[|ds| - 1]
  }

  /** The histogram a list of durations calls for. */
  ghost predicate Tallies(h: Histogram, ds: seq<real>) {
    && |h.counts| == |BOUNDS|
    && (forall i :: 0 <= i < |BOUNDS| ==> h.counts[i] == AtMost(ds, BOUNDS[i]))
    && h.sum == Sum(ds)
    && h.count == |ds|
  }

  lemma {:induction false} TalliesAppend(h: Histogram, ds: seq<real>, d: real)
    requires Tallies(h, ds)
    ensures Tallies(Observe(h, d), ds + [d])
  {
    assert (ds + [d])[..|ds|] == ds;
  }

  /**
   After any interleaving every bucket holds exactly the durations at most its
   bound, sum and count are exact, and the separate sum agrees.
   */
  lemma {:induction false} HistogramsExact(es: seq<Event>, durKey: string)
    ensures Tallies(HistogramOf(After(es).m, durKey), Durations(es, durKey))
    ensures SumOf(After(es).m, durKey) == HistogramOf(After(es).m, durKey).sum
  {
    if es != [] {
      var before, e := es[..|es| - 1], es[|es| - 1];
      var s := After(before);
      HistogramsExact(before, durKey);
      if e.Record? && e.id in s.pending && s.pending[e.id] == durKey {
        TalliesAppend(HistogramOf(s.m, durKey), Durations(before, durKey), e.duration);
      } else {
        assert Durations(es, durKey) == Durations(before, durKey);
      }
    }
  }

  /** Each bucket by its bound, from 5 ms to 10 s. */
  lemma {:induction false} BucketsByBound(es: seq<Event>, durKey: string)
    ensures var ds := Durations(es, durKey);
            HistogramOf(After(es).m, durKey).counts ==
              [AtMost(ds, 0.005), AtMost(ds, 0.01), AtMost(ds, 0.025), AtMost(ds, 0.05), AtMost(ds, 0.1),
               AtMost(ds, 0.25), AtMost(ds, 0.5), AtMost(ds, 1.0), AtMost(ds, 2.5), AtMost(ds, 5.0), AtMost(ds, 10.0)]
  {
    HistogramsExact(es, durKey);
  }

  lemma {:induction false} AtMostMonotone(ds: seq<real>, a: real, b: real)
    requires a <= b
    ensures AtMost(ds, a) <= AtMost(ds, b) <= |ds|
  {
    if ds != [] {
      AtMostMonotone(ds[..|ds| - 1], a, b);
    }
  }

  /** Buckets are cumulative: no bucket holds more than a later one, nor more than the count. */
  lemma {:induction false} BucketsCumulative(es: seq<Event>, durKey: string, i: nat, j: nat)
    requires i <= j < |BOUNDS|
    ensures var h := HistogramOf(After(es).m, durKey);
            |h.counts| == |BOUNDS| && 0 <= h.counts[i] <= h.counts[j] <= h.count
  {
    HistogramsExact(es, durKey);
    AtMostMonotone(Durations(es, durKey), BOUNDS[i], BOUNDS[j]);
  }

  // ---------------------------------------------------------------------------
  // Conservation between the counters and the histograms
  // ---------------------------------------------------------------------------

  lemma {:induction false} DigitsPipeFree(n: nat)
    ensures PIPE !in Digits(n)
  {
    if n >= 10 {
      DigitsPipeFree(n / 10);
    }
  }

  /** The key counts a request of the given method and host. */
  predicate Belongs(k: string, durKey: string) {
    durKey + "|" <= k && PIPE !in k[|durKey| + 1..]
  }

  lemma {:induction false} ReqKeyBelongs(durKey: string, status: int, other: string)
    ensures Belongs(ReqKey(durKey, status), other) <==> durKey == other
  {
    var k, text := ReqKey(durKey, status), Itoa(status);
    DigitsPipeFree(if status < 0 then -status else status);
    assert PIPE !in text;
    if Belongs(k, other) {
      assert k == other + "|" + k[|other| + 1..];
      SplitUnique(durKey, other, text, k[|other| + 1..]);
    }
    if durKey == other {
      assert k[|durKey| + 1..] == text;
    }
  }

  /** The total of some entries. */
  ghost function Total(m: map<string, int>, ks: set<string>): int
    requires ks <= m.Keys
  {
    if ks == {} then 0
    else
      var k :| k in ks;
      m[k] + Total(m, ks - {k})
  }

  lemma {:induction false} TotalTake(m: map<string, int>, ks: set<string>, k: string)
    requires ks <= m.Keys && k in ks
    ensures Total(m, ks) == m[k] + Total(m, ks - {k})
    decreases ks
  {
    var x :| x in ks && Total(m, ks) == m[x] + Total(m, ks - {x});
    if x != k {
      TotalTake(m, ks - {x}, k);
      TotalTake(m, ks - {k}, x);
      assert ks - {x} - {k} == ks - {k} - {x};
    }
  }

  lemma {:induction false} TotalSame(m: map<string, int>, m': map<string, int>, ks: set<string>)
    requires ks <= m.Keys && ks <= m'.Keys && forall k :: k in ks ==> m[k] == m'[k]
    ensures Total(m, ks) == Total(m', ks)
    decreases ks
  {
    if ks != {} {
      var k :| k in ks;
      TotalTake(m, ks, k);
      TotalTake(m', ks, k);
      TotalSame(m, m', ks - {k});
    }
  }

  ghost function KeysOf(m: map<string, int>, durKey: string): set<string> {
    set k | k in m && Belongs(k, durKey)
  }

  /** The requests counted under any status. */
  ghost function Counted(m: map<string, int>, durKey: string): int {
    Total(m, KeysOf(m, durKey))
  }

  lemma {:induction false} CountedUpdate(m: map<string, int>, k: string, durKey: string)
    ensures Counted(m[k := Get(m, k) + 1], durKey) == Counted(m, durKey) + if Belongs(k, durKey) then 1 else 0
  {
    var m', ks := m[k := Get(m, k) + 1], KeysOf(m, durKey);
    var ks' := KeysOf(m', durKey);
    if Belongs(k, durKey) {
      assert ks' == ks + {k};
      TotalTake(m', ks', k);
      TotalSame(m, m', ks - {k});
      assert ks' - {k} == ks - {k};
      if k in m {
        TotalTake(m, ks, k);
      } else {
        assert ks - {k} == ks;
      }
    } else {
      assert ks' == ks;
      TotalSame(m, m', ks);
    }
  }

  ghost function PendingOf(s: System, durKey: string): set<nat> {
    set id | id in s.pending && s.pending[id] == durKey
  }

  lemma {:induction false} PendingNext(s: System, e: Event, durKey: string)
    ensures |PendingOf(Next(s, e), durKey)| ==
            |PendingOf(s, durKey)|
            + (if e.Count? && e.id !in s.pending && DurKey(e.verb, e.host) == durKey then 1 else 0)
            - (if e.Record? && e.id in s.pending && s.pending[e.id] == durKey then 1 else 0)
  {
    var p, p' := PendingOf(s, durKey), PendingOf(Next(s, e), durKey);
    if e.Count? && e.id !in s.pending && DurKey(e.verb, e.host) == durKey {
      assert p' == p + {e.id};
    } else if e.Record? && e.id in s.pending && s.pending[e.id] == durKey {
      assert p' == p - {e.id};
    } else {
      assert p' == p;
    }
  }

  /**
   The requests counted for a method and host over all statuses are those in its
   histogram plus those between their two critical sections.
   */
  lemma {:induction false} RequestsConserved(es: seq<Event>, durKey: string)
    ensures Counted(After(es).m.totals, durKey)
         == HistogramOf(After(es).m, durKey).count + |PendingOf(After(es), durKey)|
  {
    if es == [] {
      assert KeysOf(After(es).m.totals, durKey) == {} && PendingOf(After(es), durKey) == {};
    } else {
      var s, e := After(es[..|es| - 1]), es[|es| - 1];
      RequestsConserved(es[..|es| - 1], durKey);
      PendingNext(s, e, durKey);
      if e.Count? && e.id !in s.pending {
        CountedUpdate(s.m.totals, ReqKey(DurKey(e.verb, e.host), e.status), durKey);
        ReqKeyBelongs(DurKey(e.verb, e.host), e.status, durKey);
      }
    }
  }

  // ---------------------------------------------------------------------------
  // One method and host
  // ---------------------------------------------------------------------------

  /** The observations begun for a method and host. */
  function Observed(es: seq<Event>, verb: string, host: string): nat {
    if es == [] then 0
    else
      var s, e := After(es[..|es| - 1]), es[|es| - 1];
      Observed(es[..|es| - 1], verb, host)
      + if e.Count? && e.id !in s.pending && e.verb == verb && e.host == host then 1 else 0
  }

  /** The counters and the histogram of a method and host account for exactly its own observations. */
  ghost predicate Accounted(es: seq<Event>, verb: string, host: string) {
    var s, durKey := After(es), DurKey(verb, host);
    && Counted(s.m.totals, durKey) == Observed(es, verb, host)
    && HistogramOf(s.m, durKey).count + |PendingOf(s, durKey)| == Observed(es, verb, host)
  }

  /** No other method and host share the key. */
  ghost predicate OwnsKey(verb: string, host: string) {
    forall v: string, h: string :: DurKey(v, h) == DurKey(verb, host) ==> v == verb && h == host
  }

  lemma {:induction false} KeyPipes(verb: string, host: string)
    ensures Pipes(DurKey(verb, host)) == Pipes(verb) + 1 + Pipes(host)
  {
    PipesAdd(verb + "|", host);
    PipesAdd(verb, "|");
    assert "|"[1..] == "";
  }

  lemma {:induction false} OwnsPlainKey(verb: string, host: string)
    requires PIPE !in verb && PIPE !in host
    ensures OwnsKey(verb, host)
  {
    PipesZeroIff(verb);
    PipesZeroIff(host);
    KeyPipes(verb, host);
    forall v: string, h: string | DurKey(v, h) == DurKey(verb, host) ensures v == verb && h == host {
      KeyPipes(v, h);
      PipesZeroIff(h);
      SplitUnique(v, verb, h, host);
    }
  }

  /** A method or host with a pipe shares its key with another pair. */
  lemma {:induction false} PipedTwin(verb: string, host: string) returns (v: string, h: string)
    requires PIPE in verb || PIPE in host
    ensures DurKey(v, h) == DurKey(verb, host) && (v != verb || h != host)
  {
    if PIPE in verb {
      var i := FirstPipe(verb);
      assert i < |verb|;
      v, h := verb[..i], verb[i + 1..] + "|" + host;
      assert verb == verb[..i] + "|" + verb[i + 1..];
      assert v + "|" + h == (v + "|" + verb[i + 1..]) + "|" + host;
    } else {
      var i := FirstPipe(host);
      assert i < |host|;
      v, h := verb + "|" + host[..i], host[i + 1..];
      assert host == host[..i] + "|" + host[i + 1..];
      assert v + "|" + h == verb + "|" + (host[..i] + "|" + host[i + 1..]);
      assert |v| > |verb|;
    }
  }

  lemma {:induction false} CountedNext(s: System, e: Event, durKey: string)
    ensures Counted(Next(s, e).m.totals, durKey)
         == Counted(s.m.totals, durKey)
            + if e.Count? && e.id !in s.pending && DurKey(e.verb, e.host) == durKey then 1 else 0
  {
    if e.Count? && e.id !in s.pending {
      CountedUpdate(s.m.totals, ReqKey(DurKey(e.verb, e.host), e.status), durKey);
      ReqKeyBelongs(DurKey(e.verb, e.host), e.status, durKey);
    }
  }

  lemma {:induction false} CountedNone(durKey: string)
    ensures Counted(After([]).m.totals, durKey) == 0
  {
    assert KeysOf(After([]).m.totals, durKey) == {};
  }

  lemma {:induction false} OwnObservations(es: seq<Event>, verb: string, host: string)
    requires OwnsKey(verb, host)
    ensures Counted(After(es).m.totals, DurKey(verb, host)) == Observed(es, verb, host)
  {
    if es == [] {
      CountedNone(DurKey(verb, host));
    } else {
      var e := es[|es| - 1];
      OwnObservations(es[..|es| - 1], verb, host);
      CountedNext(After(es[..|es| - 1]), e, DurKey(verb, host));
      if e.Count? {
        assert DurKey(e.verb, e.host) == DurKey(verb, host) <==> e.verb == verb && e.host == host;
      }
    }
  }

  lemma {:induction false} SharedKeyMiscounts(v: string, h: string, verb: string, host: string)
    requires DurKey(v, h) == DurKey(verb, host) && (v != verb || h != host)
    ensures !Accounted([Count(0, v, h, 200)], verb, host)
  {
    var e := Count(0, v, h, 200);
    assert [e][..0] == [];
    CountedNone(DurKey(verb, host));
    CountedNext(After([]), e, DurKey(verb, host));
    assert After([e]) == Next(After([]), e);
    assert Observed([e], verb, host) == 0;
  }

  /**
   In every run the requests counted for a method and host, over all statuses, and
   those in its histogram or between the two sections are exactly that pair's
   observations, if and only if neither of them contains a pipe.
   */
  lemma {:induction false} AccountedIff(verb: string, host: string)
    ensures (forall es: seq<Event> :: Accounted(es, verb, host)) <==> PIPE !in verb && PIPE !in host
  {
    if PIPE !in verb && PIPE !in host {
      OwnsPlainKey(verb, host);
      forall es: seq<Event> ensures Accounted(es, verb, host) {
        OwnObservations(es, verb, host);
        RequestsConserved(es, DurKey(verb, host));
      }
    } else {
      var v, h := PipedTwin(verb, host);
      SharedKeyMiscounts(v, h, verb, host);
    }
  }

  // ---------------------------------------------------------------------------
  // One status
  // ---------------------------------------------------------------------------

  /** A status is written as its digits, after a minus sign if it is negative. */
  lemma {:induction false} ItoaReads(n: int)
    ensures n >= 0 ==> Itoa(n) != "" && AllDigits(Itoa(n)) && Value(Itoa(n)) == n
    ensures n < 0 ==> Itoa(n) != "" && Itoa(n)[0] == '-' && AllDigits(Itoa(n)[1..]) && Value(Itoa(n)[1..]) == -n
  {
    ValueOfDigits(if n < 0 then -n else n);
    if n < 0 {
      assert Itoa(n)[1..] == Digits(-n);
    }
  }

  lemma {:induction false} ItoaInjective(a: int, b: int)
    requires Itoa(a) == Itoa(b)
    ensures a == b
  {
    ItoaReads(a);
    ItoaReads(b);
    assert a >= 0 ==> IsDigit(Itoa(a)[0]);
    assert b >= 0 ==> IsDigit(Itoa(b)[0]);
  }

  lemma {:induction false} ReqKeyInjective(k1: string, s1: int, k2: string, s2: int)
    ensures ReqKey(k1, s1) == ReqKey(k2, s2) <==> k1 == k2 && s1 == s2
  {
    if ReqKey(k1, s1) == ReqKey(k2, s2) {
      ReqKeyBelongs(k1, s1, k1);
      ReqKeyBelongs(k2, s2, k1);
      assert ReqKey(k1, s1)[|k1| + 1..] == Itoa(s1) && ReqKey(k2, s2)[|k1| + 1..] == Itoa(s2);
      ItoaInjective(s1, s2);
    }
  }

  /** The observations begun for a method, host and status. */
  function ObservedAs(es: seq<Event>, verb: string, host: string, status: int): nat {
    if es == [] then 0
    else
      var s, e := After(es[..|es| - 1]), es[|es| - 1];
      ObservedAs(es[..|es| - 1], verb, host, status)
      + if e == Count(e.id, verb, host, status) && e.id !in s.pending then 1 else 0
  }

  lemma {:induction false} OwnCounter(es: seq<Event>, verb: string, host: string, status: int)
    requires OwnsKey(verb, host)
    ensures Get(After(es).m.totals, ReqKey(DurKey(verb, host), status)) == ObservedAs(es, verb, host, status)
  {
    if es != [] {
      var e := es[|es| - 1];
      OwnCounter(es[..|es| - 1], verb, host, status);
      if e.Count? {
        ReqKeyInjective(DurKey(e.verb, e.host), e.status, DurKey(verb, host), status);
      }
    }
  }

  /**
   In every run the counter of a method, host and status is the number of observations
   of just these three, if and only if method and host contain no pipe.
   */
  lemma {:induction false} StatusCountedIff(verb: string, host: string, status: int)
    ensures (forall es: seq<Event> ::
               Get(After(es).m.totals, ReqKey(DurKey(verb, host), status)) == ObservedAs(es, verb, host, status))
            <==> PIPE !in verb && PIPE !in host
  {
    if PIPE !in verb && PIPE !in host {
      OwnsPlainKey(verb, host);
      forall es: seq<Event>
        ensures Get(After(es).m.totals, ReqKey(DurKey(verb, host), status)) == ObservedAs(es, verb, host, status)
      {
        OwnCounter(es, verb, host, status);
      }
    } else {
      var v, h := PipedTwin(verb, host);
      var e := Count(0, v, h, status);
      assert [e][..0] == [] && After([e]) == Next(After([]), e);
      assert ObservedAs([e], verb, host, status) == 0;
    }
  }

  // ---------------------------------------------------------------------------
  // The export
  // ---------------------------------------------------------------------------

  /**
   Every counter is exported: its key splits into three labels that lead back to
   it. They are the observed ones exactly when neither method nor host has a pipe.
   */
  lemma {:induction false} LabelsExact(verb: string, host: string, status: int)
    ensures var key := ReqKey(DurKey(verb, host), status);
            var labels := Fields(key, 3);
            && |labels| == 3
            && labels[0] + "|" + labels[1] + "|" + labels[2] == key
            && (labels == [verb, host, Itoa(status)] <==> PIPE !in verb && PIPE !in host)
  {
    var last := Itoa(status);
    var key := ReqKey(DurKey(verb, host), status);
    var labels := Fields(key, 3);
    JoinThree(verb, host, last);
    ThreeFields(verb, host, last);
    JoinFields(key, 3);
    assert labels == [labels[0], labels[1], labels[2]];
    JoinThree(labels[0], labels[1], labels[2]);
    RoundTripIff([verb, host, last]);
    assert [verb, host, last][..2] == [verb, host];
    assert PipeFree([verb, host]) <==> PIPE !in verb && PIPE !in host;
  }
}
