/** What the sliding-window limiter's map holds, in terms of the calls alone. */
module SlidingContents {
  import opened Common
  import opened Timeline
  import opened Traffic
  import opened SlidingWindow

  /** The admissions of an IP, not forgotten by an eviction, in the window that ended when it last called. */
  function LastWindow(c: Config, es: seq<Event>, ip: string): seq<Time>
    requires LastCall(es, ip).Some?
  {
    var t := LastCall(es, ip).value;
    InSpan(LiveHistory(es, ip), t - c.window, t)
  }

  lemma {:induction false} OwnCallStores(c: Config, es: seq<Event>, ms: seq<Store>)
    requires c.Valid() && IsRun(c, es, ms) && es != [] && es[|es| - 1].Call? && es[|es| - 1].ip in ms[|es|]
    ensures ms[|es|][es[|es| - 1].ip] == LastWindow(c, es, es[|es| - 1].ip)
  {
    var n := |es| - 1;
    var e := es[n];
    assert StepAt(Steps(c), es, ms, n);
    RunPrefix(map[], Steps(c), es, ms, n);
    RunPruned(c, es[..n], ms[..n + 1], e.ip, e.now);
    CallOutcome(c, ms[n], e, ms[n + 1], Expire(Stored(ms[n], e.ip), e.now - c.window));
    InSpanAppend(LiveHistory(es[..n], e.ip), e.now, e.now - c.window, e.now);
  }

  /** Another event leaves an IP that stays as it was. */
  lemma {:induction false} OtherEventKeeps(c: Config, es: seq<Event>, ms: seq<Store>, ip: string)
    requires c.Valid() && IsRun(c, es, ms) && ip in ms[|es|]
    requires es != [] && !(es[|es| - 1].Call? && es[|es| - 1].ip == ip)
    ensures var n := |es| - 1;
            && ip in ms[n] && ms[n + 1][ip] == ms[n][ip]
            && LiveHistory(es, ip) == LiveHistory(es[..n], ip) && LastCall(es, ip) == LastCall(es[..n], ip)
  {
    var n := |es| - 1;
    assert StepAt(Steps(c), es, ms, n);
    assert ip in ms[n] ==> ms[n][ip] != [] by {
      RunPrefix(map[], Steps(c), es, ms, n);
      RunInvariant(c, es[..n], ms[..n + 1], ip, es[n].now);
    }
    if es[n].Call? {
      OtherOutcome(c, ms[n], es[n], ms[n + 1], ip);
    }
  }

  /** Every stored list is what was in the window when its IP last called. */
  lemma {:induction false} StoredIsLastWindow(c: Config, es: seq<Event>, ms: seq<Store>, ip: string)
    requires c.Valid() && IsRun(c, es, ms) && ip in ms[|es|]
    ensures LastCall(es, ip).Some? && ms[|es|][ip] == LastWindow(c, es, ip)
  {
    var n := |es| - 1;
    if es[n].Call? && es[n].ip == ip {
      OwnCallStores(c, es, ms);
    } else {
      OtherEventKeeps(c, es, ms, ip);
      RunPrefix(map[], Steps(c), es, ms, n);
      StoredIsLastWindow(c, es[..n], ms[..n + 1], ip);
    }
  }

  /**
   A cleanup drops exactly the IPs whose oldest admission in their last call's window is
   more than two windows old, and leaves the lists of the others as they were.
   */
  lemma {:induction false} CleanupDropsIff(c: Config, es: seq<Event>, ms: seq<Store>, i: nat, ip: string)
    requires c.Valid() && IsRun(c, es, ms) && i < |es| && es[i].Cleanup?
    ensures ip in ms[i + 1] <==>
              && ip in ms[i] && LastCall(es[..i], ip).Some? && LastWindow(c, es[..i], ip) != []
              && LastWindow(c, es[..i], ip)[0] >= es[i].now - 2.0 * c.window
    ensures ip in ms[i + 1] ==> ms[i + 1][ip] == ms[i][ip]
  {
    assert StepAt(Steps(c), es, ms, i);
    RunPrefix(map[], Steps(c), es, ms, i);
    if ip in ms[i] {
      StoredIsLastWindow(c, es[..i], ms[..i + 1], ip);
      RunInvariant(c, es[..i], ms[..i + 1], ip, es[i].now);
    }
  }
}
