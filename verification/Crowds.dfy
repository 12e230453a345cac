/**
 Who calls a limiter, runs that look the same to the callers, and the pieces from
 which runs of many callers are built.
 */
module Crowds {
  import opened Common
  import opened Timeline
  import opened Traffic

  function Callers(es: seq<Event>): set<string> {
    set e | e in es && e.Call? :: e.ip
  }

  lemma {:induction false} CallersExtend(es: seq<Event>, e: Event)
    ensures Callers(es + [e]) == Callers(es) + if e.Call? then {e.ip} else {}
  {
    assert forall x :: x in es + [e] <==> x in es || x == e;
    if e.Call? {
      assert e in es + [e];
    }
  }

  lemma {:induction false} CallersSplit(es: seq<Event>, n: nat)
    requires n <= |es|
    ensures Callers(es[..n]) <= Callers(es)
    ensures n < |es| && es[n].Call? ==> es[n].ip in Callers(es)
  {
    if n < |es| {
      assert es[n] in es;
    }
  }

  /** The same call with the same verdict; what it evicted does not show. */
  predicate SameCall(a: Event, b: Event) {
    a.Call? && b.Call? && a.ip == b.ip && a.now == b.now && a.verdict == b.verdict
  }

  ghost predicate SameCalls(as_: seq<Event>, bs: seq<Event>) {
    |as_| == |bs| && forall i :: 0 <= i < |as_| ==> SameCall(as_[i], bs[i])
  }

  lemma {:induction false} SameCallsAgree(as_: seq<Event>, bs: seq<Event>, ip: string)
    requires SameCalls(as_, bs)
    ensures Admissions(as_, ip) == Admissions(bs, ip)
  {
    if as_ != [] {
      var n := |as_| - 1;
      SameCallsAgree(as_[..n], bs[..n], ip);
      assert SameCall(as_[n], bs[n]);
    }
  }

  lemma {:induction false} SameCallsCallers(as_: seq<Event>, bs: seq<Event>)
    requires SameCalls(as_, bs)
    ensures Callers(as_) == Callers(bs)
  {
    forall i | 0 <= i < |as_| ensures as_[i].ip in Callers(bs) && bs[i].ip in Callers(as_) {
      assert SameCall(as_[i], bs[i]);
      assert as_[i] in as_ && bs[i] in bs;
    }
  }

  /** The same event, except for what it evicted. */
  predicate SameEvent(a: Event, b: Event) {
    if a.Call? then SameCall(a, b) else a == b
  }

  ghost predicate SameEvents(as_: seq<Event>, bs: seq<Event>) {
    |as_| == |bs| && forall i :: 0 <= i < |as_| ==> SameEvent(as_[i], bs[i])
  }

  lemma {:induction false} SubsetSize<T>(a: set<T>, b: set<T>)
    requires a <= b
    ensures |a| <= |b|
  {
    if a != {} {
      var x :| x in a;
      SubsetSize(a - {x}, b - {x});
    }
  }

  /** A part of a set, of any size up to its own. */
  lemma {:induction false} PartOfSize<T>(a: set<T>, n: nat) returns (b: set<T>)
    requires n <= |a|
    ensures b <= a && |b| == n
  {
    if n == |a| {
      b := a;
    } else {
      var x :| x in a;
      b := PartOfSize(a - {x}, n);
    }
  }

  /** A supply of distinct callers, named by their length. */
  function Name(n: nat): string {
    seq(n, i => 'a')
  }

  function Names(n: nat): (ips: set<string>)
    ensures |ips| == n && forall ip :: ip in ips ==> |ip| < n
  {
    if n == 0 then {}
    else
      assert |Name(n - 1)| == n - 1;
      Names(n - 1) + {Name(n - 1)}
  }

  /** One of some IPs; the empty string only if there is no other. */
  lemma {:induction false} NamedFirst(ips: set<string>) returns (ip: string)
    requires ips != {}
    ensures ip in ips && (ip == "" ==> ips == {""})
  {
    var named := ips - {""};
    if named == {} {
      ip := "";
      assert ips == {""};
    } else {
      ip :| ip in named;
    }
  }

  /** `es` continues `before` by calls at time `t` of IPs in `ips`. */
  ghost predicate ContinuesAt(before: seq<Event>, es: seq<Event>, t: Time, ips: set<string>) {
    && before <= es
    && forall i :: |before| <= i < |es| ==> es[i].Call? && es[i].now == t && es[i].ip in ips
  }

  lemma {:induction false} ContinuedCallers(before: seq<Event>, es: seq<Event>, t: Time, ips: set<string>)
    requires ContinuesAt(before, es, t, ips)
    ensures Callers(es) <= Callers(before) + ips
  {
    forall e | e in es && e.Call? ensures e.ip in Callers(before) + ips {
      var i :| 0 <= i < |es| && es[i] == e;
      if i < |before| {
        assert es[i] == before[i] && before[i] in before;
      }
    }
  }

  function Times(t: Time, k: nat): seq<Time> {
    if k == 0 then [] else Times(t, k - 1) + [t]
  }

  lemma {:induction false} TimesInSpan(t: Time, k: nat, lo: Time, hi: Time)
    requires lo <= t <= hi
    ensures |InSpan(Times(t, k), lo, hi)| == k
  {
    if k > 0 {
      TimesInSpan(t, k - 1, lo, hi);
      InSpanAppend(Times(t, k - 1), t, lo, hi);
    }
  }

  function Dropped<T>(s: seq<T>, i: nat): seq<T>
    requires i < |s|
  {
    s[..i] + s[i + 1..]
  }

  /** An event that changes nothing can be dropped from a run. */
  lemma {:induction false} RunDrop<S>(init: S, step: StepRelation<S>, es: seq<Event>, ms: seq<S>, i: nat)
    requires IsRunOf(init, step, es, ms) && i < |es| && ms[i + 1] == ms[i]
    ensures IsRunOf(init, step, Dropped(es, i), Dropped(ms, i))
  {
    var es', ms' := Dropped(es, i), Dropped(ms, i);
    forall j | 0 <= j < |es'| ensures StepAt(step, es', ms', j) {
      var k := if j < i then j else j + 1;
      assert StepAt(step, es, ms, k);
      assert es'[j] == es[k] && ms'[j + 1] == ms[k + 1];
      assert ms'[j] == ms[k];
      if j == i && j > 0 {
        assert StepAt(step, es, ms, i);
      }
    }
  }
}
