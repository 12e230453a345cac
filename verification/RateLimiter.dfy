/** The sliding-window limiter as an object that updates its map in place. */
module RateLimiters {
  import opened Common
  import opened Timeline
  import opened Traffic
  import opened SlidingWindow

  class RateLimiter {
    const limit: int
    const window: real
    const maxIPs: int
    var requests: Store

    // The run this object has performed so far.
    ghost var trace: seq<Event>
    ghost var states: seq<Store>

    ghost function Settings(): Config {
      Config(limit, window, maxIPs)
    }

    ghost predicate Valid()
      reads this
    {
      && Settings().Valid()
      && IsRun(Settings(), trace, states)
      && states[|trace|] == requests
    }

    /** `now` is not before anything that has happened. */
    ghost predicate NotBefore(now: Time)
      reads this
    {
      trace != [] ==> trace[|trace| - 1].now <= now
    }

    constructor (limit: int, window: real, maxIPs: int)
      ensures requests == map[] && trace == [] && states == [map[]]
      ensures Settings() == Config(limit, window, maxIPs)
      ensures Settings().Valid() ==> Valid()
    {
      this.limit, this.window, this.maxIPs := limit, window, maxIPs;
      requests := map[];
      trace, states := [], [map[]];
    }

    /** Notes that `e` led from the last recorded map to the current one. */
    ghost method Record(e: Event)
      requires Settings().Valid() && IsRun(Settings(), trace, states) && NotBefore(e.now)
      requires Step(Settings(), states[|trace|], e, requests)
      modifies `trace, `states
      ensures Valid()
      ensures trace == old(trace) + [e] && states == old(states) + [requests]
    {
      RunExtend(map[], Steps(Settings()), trace, states, e, requests);
      trace, states := trace + [e], states + [requests];
    }

    /** Drops the leading entries of one list that are from before `windowStart`. */
    method RemoveExpired(ip: string, windowStart: Time)
      requires ip in requests
      modifies `requests
      ensures requests == old(requests)[ip := Expire(old(requests)[ip], windowStart)]
    {
      while |requests[ip]| > 0 && requests[ip][0] < windowStart
        invariant requests.Keys == old(requests).Keys
        invariant requests == old(requests)[ip := requests[ip]]
        invariant Expire(requests[ip], windowStart) == Expire(old(requests)[ip], windowStart)
        decreases |requests[ip]|
      {
        requests := requests[ip := requests[ip][1..]];
      }
    }

    /** Drops empty lists and the list with the oldest front. */
    method EvictOldest() returns (ghost victim: Option<string>)
      modifies `requests
      ensures EvictStep(Populated(old(requests)), Front, requests, victim)
    {
      ghost var all := requests;
      var oldestIP, oldestTime, first := "", 0.0, true;
      var todo := requests.Keys;
      while todo != {}
        invariant todo <= all.Keys
        invariant requests == map k | k in all && (k in todo || all[k] != []) :: all[k]
        invariant first ==> oldestIP == "" && forall k :: k in all && k !in todo ==> all[k] == []
        invariant !first ==>
                    && oldestIP in all && oldestIP !in todo && all[oldestIP] != []
                    && oldestTime == Front(all[oldestIP])
                    && forall k :: k in all && k !in todo && all[k] != [] ==> oldestTime <= Front(all[k])
        decreases |todo|
      {
        var ipKey :| ipKey in todo;
        todo := todo - {ipKey};
        if |requests[ipKey]| == 0 {
          requests := requests - {ipKey};
          continue;
        }
        var t := requests[ipKey][0];
        if first || t < oldestTime {
          oldestTime := t;
          oldestIP := ipKey;
          first := false;
        }
      }
      assert requests == Populated(all);
      victim := None;
      if oldestIP != "" {
        requests := requests - {oldestIP};
        victim := Some(oldestIP);
      }
    }

    /** What `Allow` does to the map. */
    method Admit(ip: string, now: Time)
      returns (allowed: bool, remaining: int, reset: Time, retryAfter: real, ghost victim: Option<string>)
      requires Settings().Valid()
      modifies `requests
      ensures Step(Settings(), old(requests),
                   Call(ip, now, Verdict(allowed, remaining, reset, retryAfter), victim), requests)
    {
      ghost var m := requests;
      var windowStart := now - window;
      reset := now + window;
      allowed, remaining, retryAfter, victim := false, 0, 0.0, None;

      if ip !in requests {
        requests := requests[ip := []];
      }
      RemoveExpired(ip, windowStart);
      ghost var r := Expire(Stored(m, ip), windowStart);
      assert requests == m[ip := r];

      if |requests[ip]| >= limit {
        var oldest := requests[ip][0];
        retryAfter := window - (now - oldest);
      } else {
        requests := requests[ip := requests[ip] + [now]];
        allowed := true;
        remaining := limit - |requests[ip]|;
        assert requests == m[ip := r + [now]];
        if maxIPs > 0 && |requests| > maxIPs {
          victim := EvictOldest();
        }
      }

      ghost var e := Call(ip, now, Verdict(allowed, remaining, reset, retryAfter), victim);
    }

    method Allow(ip: string, now: Time)
      returns (allowed: bool, remaining: int, reset: Time, retryAfter: real, ghost victim: Option<string>)
      requires Valid() && NotBefore(now)
      modifies this
      ensures Valid()
      ensures trace == old(trace) + [Call(ip, now, Verdict(allowed, remaining, reset, retryAfter), victim)]
      ensures states == old(states) + [requests]
      ensures Verdict(allowed, remaining, reset, retryAfter) == Naive(Settings(), LiveHistory(old(trace), ip), now)
      ensures allowed <==> |InSpan(LiveHistory(old(trace), ip), now - window, now)| < limit
      ensures reset == now + window && (if allowed then retryAfter == 0.0 else remaining == 0)
    {
      allowed, remaining, reset, retryAfter, victim := Admit(ip, now);
      ghost var e := Call(ip, now, Verdict(allowed, remaining, reset, retryAfter), victim);
      ghost var h := LiveHistory(trace, ip);
      assert e.verdict == Naive(Settings(), h, now) by {
        CallOutcome(Settings(), states[|trace|], e, requests, Expire(Stored(states[|trace|], ip), now - window));
        RunPruned(Settings(), trace, states, ip, now);
      }
      NaiveAnswers(Settings(), h, now);
      Record(e);
    }

    /** One tick of the background cleanup. */
    method Cleanup(now: Time)
      requires Valid() && NotBefore(now)
      modifies this
      ensures Valid()
      ensures trace == old(trace) + [Event.Cleanup(now)]
      ensures states == old(states) + [requests]
    {
      ghost var all := requests;
      var cutoff := now - 2.0 * window;
      var todo := requests.Keys;
      while todo != {}
        invariant todo <= all.Keys
        invariant requests == map k | k in all && (k in todo || !Stale(Settings(), all[k], now)) :: all[k]
        invariant trace == old(trace) && states == old(states)
        decreases |todo|
      {
        var ip :| ip in todo;
        todo := todo - {ip};
        if |requests[ip]| == 0 {
          requests := requests - {ip};
          continue;
        }
        var oldest := requests[ip][0];
        if oldest < cutoff {
          requests := requests - {ip};
        }
      }
      assert requests == Swept(Settings(), all, now);
      Record(Event.Cleanup(now));
    }
  }
}
