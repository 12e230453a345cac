/**
 Vocabulary shared by the two per-IP limiters: what happens to a limiter (calls
 and background cleanups), what one IP sees of it, and the claim that a limiter
 follows a policy, that is, decides every call from that IP's own admissions.

 Time is a real number of seconds and is an input of every event.
 */
module Traffic {
  import opened Common
  import opened Timeline

  /** The four results of `Allow`. */
  datatype Verdict = Verdict(allowed: bool, remaining: int, reset: Time, retryAfter: real)

  /** One critical section of a limiter. `victim` is the entry a call evicted, if any. */
  datatype Event =
    | Call(ip: string, now: Time, verdict: Verdict, victim: Option<string>)
    | Cleanup(now: Time)

  ghost predicate Monotone(es: seq<Event>) {
    forall i, j :: 0 <= i < j < |es| ==> es[i].now <= es[j].now
  }

  lemma {:induction false} MonotoneExtend(es: seq<Event>, e: Event)
    requires Monotone(es) && (es != [] ==> es[|es| - 1].now <= e.now)
    ensures Monotone(es + [e])
  {
  }

  predicate Evicts(e: Event, ip: string) {
    e.Call? && e.victim == Some(ip)
  }

  predicate Admits(e: Event, ip: string) {
    e.Call? && e.ip == ip && e.verdict.allowed
  }

  ghost predicate NeverEvicted(es: seq<Event>, ip: string) {
    forall i :: 0 <= i < |es| ==> !Evicts(es[i], ip)
  }

  /** Times of all admissions of `ip`, in order. */
  function Admissions(es: seq<Event>, ip: string): seq<Time> {
    if es == [] then []
    else
      var e := es[|es| - 1];
      Admissions(es[..|es| - 1], ip) + if Admits(e, ip) then [e.now] else []
  }

  /** When an IP last called, whether it was admitted or not. */
  function LastCall(es: seq<Event>, ip: string): Option<Time> {
    if es == [] then None
    else
      var e := es[|es| - 1];
      if e.Call? && e.ip == ip then Some(e.now) else LastCall(es[..|es| - 1], ip)
  }

  /** One event's effect on the admissions of `ip` since its last eviction. */
  function HistoryAfter(e: Event, ip: string, h: seq<Time>): seq<Time> {
    if Evicts(e, ip) then [] else if Admits(e, ip) then h + [e.now] else h
  }

  /** Times of the admissions of `ip` since its entry was last evicted. */
  function LiveHistory(es: seq<Event>, ip: string): seq<Time> {
    if es == [] then []
    else HistoryAfter(es[|es| - 1], ip, LiveHistory(es[..|es| - 1], ip))
  }

  /** A live history is sorted and lies in the past. */
  lemma {:induction false} LiveHistorySorted(es: seq<Event>, ip: string)
    requires Monotone(es)
    ensures Sorted(LiveHistory(es, ip))
    ensures if es == [] then LiveHistory(es, ip) == [] else Until(LiveHistory(es, ip), es[|es| - 1].now)
  {
    if es != [] {
      LiveHistorySorted(es[..|es| - 1], ip);
    }
  }

  /** Without an eviction in `es2`, the live history grows by exactly the admissions in `es2`. */
  lemma {:induction false} LiveHistoryConcat(es1: seq<Event>, es2: seq<Event>, ip: string)
    requires NeverEvicted(es2, ip)
    ensures LiveHistory(es1 + es2, ip) == LiveHistory(es1, ip) + Admissions(es2, ip)
  {
    if es2 == [] {
      assert es1 + es2 == es1;
    } else {
      var n := |es2| - 1;
      assert (es1 + es2)[..|es1| + n] == es1 + es2[..n];
      LiveHistoryConcat(es1, es2[..n], ip);
    }
  }

  // ---------------------------------------------------------------------------
  // Policies: a decision computed from one IP's own admissions
  // ---------------------------------------------------------------------------

  type Policy = (seq<Time>, Time) -> Verdict

  /** Every call is decided by `p` from the caller's admissions since its last eviction. */
  ghost predicate Follows(p: Policy, es: seq<Event>) {
    forall i :: 0 <= i < |es| && es[i].Call? ==>
      es[i].verdict == p(LiveHistory(es[..i], es[i].ip), es[i].now)
  }

  lemma {:induction false} FollowsPrefix(p: Policy, es: seq<Event>, n: nat)
    requires Follows(p, es) && n <= |es|
    ensures Follows(p, es[..n])
  {
    forall i | 0 <= i < n && es[..n][i].Call?
      ensures es[..n][i].verdict == p(LiveHistory(es[..n][..i], es[..n][i].ip), es[..n][i].now)
    {
      assert es[..n][..i] == es[..i];
    }
  }

  /** What one IP contributes to, and suffers from, a run. */
  datatype Input = Request(now: Time) | Evicted

  function InputsOf(es: seq<Event>, ip: string): seq<Input> {
    if es == [] then []
    else
      var e := es[|es| - 1];
      InputsOf(es[..|es| - 1], ip)
      + (if e.Call? && e.ip == ip then [Request(e.now)] else [])
      + (if Evicts(e, ip) then [Evicted] else [])
  }

  function VerdictsOf(es: seq<Event>, ip: string): seq<Verdict> {
    if es == [] then []
    else
      var e := es[|es| - 1];
      VerdictsOf(es[..|es| - 1], ip) + if e.Call? && e.ip == ip then [e.verdict] else []
  }

  /** The admissions of a policy run alone on `ins`, starting from the admissions `h`. */
  function HistoryFrom(p: Policy, h: seq<Time>, ins: seq<Input>): seq<Time>
    decreases ins
  {
    if ins == [] then h
    else match ins[0]
      case Evicted => HistoryFrom(p, [], ins[1..])
      case Request(now) => HistoryFrom(p, if p(h, now).allowed then h + [now] else h, ins[1..])
  }

  /** The verdicts of a policy run alone on `ins`, starting from the admissions `h`. */
  function ReplayFrom(p: Policy, h: seq<Time>, ins: seq<Input>): seq<Verdict>
    decreases ins
  {
    if ins == [] then []
    else match ins[0]
      case Evicted => ReplayFrom(p, [], ins[1..])
      case Request(now) => [p(h, now)] + ReplayFrom(p, if p(h, now).allowed then h + [now] else h, ins[1..])
  }

  lemma {:induction false} ReplayConcat(p: Policy, h: seq<Time>, a: seq<Input>, b: seq<Input>)
    ensures HistoryFrom(p, h, a + b) == HistoryFrom(p, HistoryFrom(p, h, a), b)
    ensures ReplayFrom(p, h, a + b) == ReplayFrom(p, h, a) + ReplayFrom(p, HistoryFrom(p, h, a), b)
    decreases a
  {
    if a == [] {
      assert a + b == b;
    } else {
      assert (a + b)[0] == a[0] && (a + b)[1..] == a[1..] + b;
      match a[0] {
        case Evicted => ReplayConcat(p, [], a[1..], b);
        case Request(now) => ReplayConcat(p, if p(h, now).allowed then h + [now] else h, a[1..], b);
      }
    }
  }

  lemma {:induction false} ReplayRequest(p: Policy, h: seq<Time>, now: Time)
    ensures ReplayFrom(p, h, [Request(now)]) == [p(h, now)]
    ensures HistoryFrom(p, h, [Request(now)]) == if p(h, now).allowed then h + [now] else h
  {
    assert [Request(now)][1..] == [];
  }

  lemma {:induction false} ReplayEvicted(p: Policy, h: seq<Time>)
    ensures ReplayFrom(p, h, [Evicted]) == [] && HistoryFrom(p, h, [Evicted]) == []
  {
    assert [Evicted][1..] == [];
  }

  /** What an IP sees of a limiter shared by everyone is what the policy does for it alone. */
  lemma {:induction false} ReplayAgrees(p: Policy, es: seq<Event>, ip: string)
    requires Follows(p, es)
    ensures HistoryFrom(p, [], InputsOf(es, ip)) == LiveHistory(es, ip)
    ensures ReplayFrom(p, [], InputsOf(es, ip)) == VerdictsOf(es, ip)
  {
    if es != [] {
      var before, e := es[..|es| - 1], es[|es| - 1];
      FollowsPrefix(p, es, |es| - 1);
      ReplayAgrees(p, before, ip);
      var ins, h := InputsOf(before, ip), LiveHistory(before, ip);
      var asked: seq<Input> := if e.Call? && e.ip == ip then [Request(e.now)] else [];
      var lost: seq<Input> := if Evicts(e, ip) then [Evicted] else [];
      ReplayConcat(p, [], ins + asked, lost);
      ReplayConcat(p, [], ins, asked);
      ReplayRequest(p, h, e.now);
      ReplayEvicted(p, HistoryFrom(p, [], ins + asked));
    }
  }

  /**
   Two runs that agree on one IP's call times and evictions give that IP the same
   verdicts, whatever other IPs do and wherever cleanups run.
   */
  lemma {:induction false} Isolation(p: Policy, es1: seq<Event>, es2: seq<Event>, ip: string)
    requires Follows(p, es1) && Follows(p, es2)
    requires InputsOf(es1, ip) == InputsOf(es2, ip)
    ensures VerdictsOf(es1, ip) == VerdictsOf(es2, ip)
  {
    ReplayAgrees(p, es1, ip);
    ReplayAgrees(p, es2, ip);
  }

  /** A denied request can be deleted from the past without changing any other verdict. */
  lemma {:induction false} DenialLeavesNoTrace(p: Policy, before: seq<Input>, now: Time, after: seq<Input>)
    requires !p(HistoryFrom(p, [], before), now).allowed
    ensures var h := HistoryFrom(p, [], before);
            && ReplayFrom(p, [], before + after) == ReplayFrom(p, [], before) + ReplayFrom(p, h, after)
            && ReplayFrom(p, [], before + [Request(now)] + after)
               == ReplayFrom(p, [], before) + [p(h, now)] + ReplayFrom(p, h, after)
  {
    ReplayConcat(p, [], before, after);
    ReplayConcat(p, [], before + [Request(now)], after);
    ReplayConcat(p, [], before, [Request(now)]);
    ReplayRequest(p, HistoryFrom(p, [], before), now);
  }

  /**
   Of two runs whose inputs for one IP differ by a denied request, the verdicts
   for that IP differ by that denial and by nothing else.
   */
  lemma {:induction false} DenialsAreTransparent(p: Policy, es1: seq<Event>, es2: seq<Event>, ip: string,
                              before: seq<Input>, now: Time, after: seq<Input>)
    requires Follows(p, es1) && Follows(p, es2)
    requires InputsOf(es1, ip) == before + [Request(now)] + after
    requires InputsOf(es2, ip) == before + after
    requires !p(HistoryFrom(p, [], before), now).allowed
    ensures exists v1: seq<Verdict>, denial: Verdict, v2: seq<Verdict> ::
              && VerdictsOf(es1, ip) == v1 + [denial] + v2
              && VerdictsOf(es2, ip) == v1 + v2
              && |v1| == Requests(before) && !denial.allowed
  {
    var h := HistoryFrom(p, [], before);
    ReplayAgrees(p, es1, ip);
    ReplayAgrees(p, es2, ip);
    DenialLeavesNoTrace(p, before, now, after);
    ReplayLength(p, [], before);
    assert VerdictsOf(es1, ip) == ReplayFrom(p, [], before) + [p(h, now)] + ReplayFrom(p, h, after);
  }

  /** The number of requests among some inputs. */
  function Requests(ins: seq<Input>): nat {
    if ins == [] then 0 else (if ins[0].Request? then 1 else 0) + Requests(ins[1..])
  }

  lemma {:induction false} ReplayLength(p: Policy, h: seq<Time>, ins: seq<Input>)
    ensures |ReplayFrom(p, h, ins)| == Requests(ins)
    decreases ins
  {
    if ins != [] {
      match ins[0] {
        case Evicted => ReplayLength(p, [], ins[1..]);
        case Request(now) => ReplayLength(p, if p(h, now).allowed then h + [now] else h, ins[1..]);
      }
    }
  }

  /** `k` further calls by the same IP at the same instant are all admitted. */
  ghost predicate BurstAdmitted(p: Policy, h: seq<Time>, now: Time, k: nat)
    decreases k
  {
    k == 0 || (p(h, now).allowed && BurstAdmitted(p, h + [now], now, k - 1))
  }

  // ---------------------------------------------------------------------------
  // Eviction of one oldest entry
  // ---------------------------------------------------------------------------

  ghost predicate IsOldest<T>(m: map<string, T>, age: T -> Time, k: string) {
    k in m && forall j :: j in m ==> age(m[k]) <= age(m[j])
  }

  /**
   One oldest entry is dropped; ties may go either way. When the entry chosen is
   the one with the empty key, nothing is dropped.
   */
  ghost predicate EvictStep<T>(m: map<string, T>, age: T -> Time, m': map<string, T>, victim: Option<string>) {
    match victim
    case Some(k) => k != "" && IsOldest(m, age, k) && m' == m - {k}
    case None => m' == m && (m == map[] || IsOldest(m, age, ""))
  }

  ghost predicate NamedCallers(es: seq<Event>) {
    forall i :: 0 <= i < |es| && es[i].Call? ==> es[i].ip != ""
  }

  lemma {:induction false} EvictSize<T>(m: map<string, T>, age: T -> Time, m': map<string, T>, victim: Option<string>)
    requires EvictStep(m, age, m', victim) && m != map[]
    ensures |m'| == if victim.Some? then |m| - 1 else |m|
    ensures "" !in m ==> victim.Some?
  {
    if victim.Some? {
      RemoveSize(m, victim.value);
    }
  }

  lemma {:induction false} RemoveSize<T>(m: map<string, T>, k: string)
    requires k in m
    ensures |m - {k}| == |m| - 1
  {
    assert (m - {k}).Keys == m.Keys - {k};
  }

  lemma {:induction false} UpdateSize<T>(m: map<string, T>, k: string, v: T)
    ensures |m[k := v]| == if k in m then |m| else |m| + 1
  {
    assert m[k := v].Keys == m.Keys + {k};
  }

  // ---------------------------------------------------------------------------
  // Runs of a limiter whose state has type S
  // ---------------------------------------------------------------------------

  type StepRelation<!S> = (S, Event, S) -> bool

  /** Event `i` is a step from `ms[i]` to `ms[i + 1]`, and the clock has not gone back. */
  ghost predicate StepAt<S>(step: StepRelation<S>, es: seq<Event>, ms: seq<S>, i: nat)
    requires i < |es| && i + 1 < |ms|
  {
    && step(ms[i], es[i], ms[i + 1])
    && (i > 0 ==> es[i - 1].now <= es[i].now)
  }

  /** `ms[i]` is the state before event `i`. */
  ghost predicate IsRunOf<S>(init: S, step: StepRelation<S>, es: seq<Event>, ms: seq<S>) {
    && |ms| == |es| + 1
    && ms[0] == init
    && forall i :: 0 <= i < |es| ==> StepAt(step, es, ms, i)
  }

  lemma {:induction false} RunPrefix<S>(init: S, step: StepRelation<S>, es: seq<Event>, ms: seq<S>, n: nat)
    requires IsRunOf(init, step, es, ms) && n <= |es|
    ensures IsRunOf(init, step, es[..n], ms[..n + 1])
  {
    var es', ms' := es[..n], ms[..n + 1];
    forall i | 0 <= i < n ensures StepAt(step, es', ms', i) {
      assert StepAt(step, es, ms, i);
    }
  }

  lemma {:induction false} RunExtend<S>(init: S, step: StepRelation<S>, es: seq<Event>, ms: seq<S>, e: Event, m': S)
    requires IsRunOf(init, step, es, ms)
    requires es != [] ==> es[|es| - 1].now <= e.now
    requires step(ms[|es|], e, m')
    ensures IsRunOf(init, step, es + [e], ms + [m'])
  {
    var es', ms' := es + [e], ms + [m'];
    forall i | 0 <= i < |es'| ensures StepAt(step, es', ms', i) {
      if i < |es| {
        assert StepAt(step, es, ms, i);
      }
    }
  }

  lemma {:induction false} RunMonotone<S>(init: S, step: StepRelation<S>, es: seq<Event>, ms: seq<S>)
    requires IsRunOf(init, step, es, ms)
    ensures Monotone(es)
  {
    if es != [] {
      var before, e := es[..|es| - 1], es[|es| - 1];
      RunPrefix(init, step, es, ms, |before|);
      RunMonotone(init, step, before, ms[..|es|]);
      assert StepAt(step, es, ms, |before|);
      MonotoneExtend(before, e);
      assert es == before + [e];
    }
  }
}
