/** The leaky-bucket limiter as an object whose buckets are overwritten in place. */
module LeakyBucketLimiters {
  import opened Common
  import opened Traffic
  import opened LeakyBucket

  const DEFAULT_RATE := 1.67
  const DEFAULT_CAPACITY := 50
  const DEFAULT_MAX_IPS := 100000

  class BucketCell {
    var water: real
    var lastLeak: Time

    constructor (water: real, lastLeak: Time)
      ensures this.water == water && this.lastLeak == lastLeak
    {
      this.water, this.lastLeak := water, lastLeak;
    }
  }

  /** Overwriting the caller's bucket by its leaked self first makes no difference. */
  lemma {:induction false} StoreStepAfterLeak(c: Config, m: Store, leaked: Store, ip: string, now: Time,
                                              water: real, allowed: bool,
                           m': Store, victim: Option<string>)
    requires leaked == m[ip := Bucket(water, now)]
    ensures StoreStep(c, leaked, ip, now, water, allowed, m', victim)
            <==> StoreStep(c, m, ip, now, water, allowed, m', victim)
  {
    assert leaked[ip := Bucket(water, now)] == m[ip := Bucket(water, now)];
    assert leaked[ip := Bucket(water + 1.0, now)] == m[ip := Bucket(water + 1.0, now)];
  }

  class LeakyBucketLimiter {
    const rate: real
    const capacity: real
    const maxIPs: int
    var buckets: map<string, BucketCell>

    // The run this object has performed so far.
    ghost var trace: seq<Event>
    ghost var states: seq<Store>

    ghost function Settings(): Config {
      Config(rate, capacity, maxIPs)
    }

    /** No two IPs share a cell. */
    ghost predicate Separate()
      reads this
    {
      forall j, k :: j in buckets && k in buckets && buckets[j] == buckets[k] ==> j == k
    }

    ghost function Contents(): Store
      reads this, buckets.Values
    {
      map k | k in buckets :: Bucket(buckets[k].water, buckets[k].lastLeak)
    }

    ghost predicate Valid()
      reads this, buckets.Values
    {
      && Settings().Valid()
      && Separate()
      && IsRun(Settings(), trace, states)
      && states[|trace|] == Contents()
    }

    ghost predicate NotBefore(now: Time)
      reads this
    {
      trace != [] ==> trace[|trace| - 1].now <= now
    }

    /** Settings that are not positive are replaced by defaults. */
    constructor (ratePerSec: real, capacity: int, maxIPs: int)
      ensures Valid() && buckets == map[] && trace == []
      ensures rate == if ratePerSec <= 0.0 then 1.67 else ratePerSec
      ensures this.capacity == (if capacity <= 0 then 50 else capacity) as real
      ensures this.maxIPs == if maxIPs <= 0 then 100000 else maxIPs
    {
      var r, cap, max := ratePerSec, capacity, maxIPs;
      if r <= 0.0 {
        r := DEFAULT_RATE;
      }
      if cap <= 0 {
        cap := DEFAULT_CAPACITY;
      }
      if max <= 0 {
        max := DEFAULT_MAX_IPS;
      }
      rate, this.capacity, this.maxIPs := r, cap as real, max;
      buckets := map[];
      trace, states := [], [map[]];
    }

    /** Notes that `e` led from the last recorded buckets to the current ones. */
    ghost method Record(e: Event)
      requires Settings().Valid() && Separate()
      requires IsRun(Settings(), trace, states) && NotBefore(e.now)
      requires Step(Settings(), states[|trace|], e, Contents())
      modifies `trace, `states
      ensures Valid()
      ensures trace == old(trace) + [e] && states == old(states) + [Contents()]
    {
      RunExtend(map[], Steps(Settings()), trace, states, e, Contents());
      trace, states := trace + [e], states + [Contents()];
    }

    /** Finds or makes the cell of an IP. */
    method CellFor(ip: string, now: Time) returns (b: BucketCell)
      requires Separate()
      modifies `buckets
      ensures Separate() && ip in buckets && buckets[ip] == b
      ensures fresh(buckets.Values - old(buckets.Values))
      ensures if ip in old(buckets) then buckets == old(buckets)
              else buckets == old(buckets)[ip := b] && fresh(b) && b.water == 0.0 && b.lastLeak == now
    {
      if ip in buckets {
        b := buckets[ip];
      } else {
        b := new BucketCell(0.0, now);
        buckets := buckets[ip := b];
      }
    }

    /** Drops the bucket that was leaked longest ago. */
    method EvictOldest() returns (ghost victim: Option<string>)
      requires Separate()
      modifies `buckets
      ensures Separate() && buckets.Values <= old(buckets.Values)
      ensures EvictStep(old(Contents()), LastLeak, Contents(), victim)
    {
      ghost var m := Contents();
      var oldestIP, oldestTime, first := "", 0.0, true;
      var todo := buckets.Keys;
      while todo != {}
        invariant todo <= buckets.Keys
        invariant first ==> oldestIP == "" && todo == buckets.Keys
        invariant !first ==>
                    && oldestIP in buckets && oldestTime == buckets[oldestIP].lastLeak
                    && forall k :: k in buckets && k !in todo ==> oldestTime <= buckets[k].lastLeak
        decreases |todo|
      {
        var ipKey :| ipKey in todo;
        todo := todo - {ipKey};
        var bucket := buckets[ipKey];
        if first || bucket.lastLeak < oldestTime {
          oldestTime := bucket.lastLeak;
          oldestIP := ipKey;
          first := false;
        }
      }
      assert m == map[] || IsOldest(m, LastLeak, oldestIP);
      victim := None;
      if oldestIP != "" {
        buckets := buckets - {oldestIP};
        victim := Some(oldestIP);
        assert Contents() == m - {oldestIP};
      }
    }

    /** Brings the cell of an IP up to date. */
    method Leak(ip: string, now: Time) returns (b: BucketCell)
      requires Separate()
      modifies `buckets, buckets.Values
      ensures Separate() && ip in buckets && buckets[ip] == b
      ensures fresh(buckets.Values - old(buckets.Values))
      ensures Contents() == old(Contents())[ip := Bucket(Leaked(Settings(), old(Contents()), ip, now), now)]
    {
      b := CellFor(ip, now);
      var elapsed := now - b.lastLeak;
      var leaked := elapsed * rate;
      assert leaked == if ip in old(buckets) then (now - old(buckets[ip].lastLeak)) * rate else 0.0;
      b.water := Max(0.0, b.water - leaked);
      b.lastLeak := now;
      assert b.water == Leaked(Settings(), old(Contents()), ip, now);
    }

    /** Pours one unit into the cell of an IP. */
    method Pour(ip: string, b: BucketCell)
      requires Separate() && ip in buckets && buckets[ip] == b
      modifies b
      ensures b.water == old(b.water) + 1.0 && b.lastLeak == old(b.lastLeak)
      ensures Contents() == old(Contents())[ip := Bucket(b.water, b.lastLeak)]
      ensures |buckets| == |Contents()|
    {
      b.water := b.water + 1.0;
      assert buckets.Keys == Contents().Keys;
    }

    /** The answer to a caller whose bucket is full. */
    method Reject(b: BucketCell, now: Time) returns (reset: Time, retryAfter: real)
      requires Settings().Valid() && b.water >= capacity
      ensures Verdict(false, 0, reset, retryAfter) == Decide(Settings(), b.water, now)
    {
      var timeToLeakOne := (b.water - capacity + 1.0) / rate;
      retryAfter := timeToLeakOne;
      reset := now + b.water / rate;
    }

    /** Pours one unit into the cell of an IP, answers, and evicts if there are now too many cells. */
    method Accept(ip: string, b: BucketCell, now: Time)
      returns (remaining: int, reset: Time, ghost victim: Option<string>)
      requires Settings().Valid() && Separate() && ip in buckets && buckets[ip] == b
      requires b.water < capacity && b.lastLeak == now
      modifies `buckets, b
      ensures Separate() && buckets.Values <= old(buckets.Values)
      ensures Verdict(true, remaining, reset, 0.0) == Decide(Settings(), old(b.water), now)
      ensures StoreStep(Settings(), old(Contents()), ip, now, old(b.water), true, Contents(), victim)
    {
      Pour(ip, b);
      remaining := Truncate(capacity - b.water);
      reset := now + b.water / rate;
      victim := None;
      if maxIPs > 0 && |buckets| > maxIPs {
        victim := EvictOldest();
      }
    }

    /** What `Allow` does to the buckets. */
    method Admit(ip: string, now: Time)
      returns (allowed: bool, remaining: int, reset: Time, retryAfter: real, ghost victim: Option<string>)
      requires Settings().Valid() && Separate()
      modifies `buckets, buckets.Values
      ensures Separate() && fresh(buckets.Values - old(buckets.Values))
      ensures AllowStep(Settings(), old(Contents()), ip, now, Contents(),
                        Verdict(allowed, remaining, reset, retryAfter), victim)
    {
      allowed, remaining, retryAfter, victim := false, 0, 0.0, None;
      var b := Leak(ip, now);
      ghost var m := Contents();
      assert b.water == m[ip].water && b.lastLeak == now;
      if b.water >= capacity {
        reset, retryAfter := Reject(b, now);
      } else {
        allowed := true;
        remaining, reset, victim := Accept(ip, b, now);
      }
      StoreStepAfterLeak(Settings(), old(Contents()), m, ip, now, m[ip].water, allowed, Contents(), victim);
    }

    method Allow(ip: string, now: Time)
      returns (allowed: bool, remaining: int, reset: Time, retryAfter: real, ghost victim: Option<string>)
      requires Valid() && NotBefore(now)
      modifies this, buckets.Values
      ensures Valid() && fresh(buckets.Values - old(buckets.Values))
      ensures trace == old(trace) + [Call(ip, now, Verdict(allowed, remaining, reset, retryAfter), victim)]
      ensures states == old(states) + [Contents()]
      ensures Verdict(allowed, remaining, reset, retryAfter)
           == Decide(Settings(), Level(rate, LiveHistory(old(trace), ip), now), now)
    {
      allowed, remaining, reset, retryAfter, victim := Admit(ip, now);
      ghost var e := Call(ip, now, Verdict(allowed, remaining, reset, retryAfter), victim);
      assert Step(Settings(), states[|trace|], e, Contents());
      CurrentLevel(Settings(), trace, states, ip, now);
      Record(e);
    }

    /** Removes the buckets that look empty and have not been leaked for a while. */
    method Sweep(now: Time)
      requires Separate()
      modifies `buckets
      ensures Separate() && buckets.Values <= old(buckets.Values)
      ensures Contents() == Swept(old(Contents()), now)
      ensures forall k :: k in buckets ==> k in old(buckets) && buckets[k] == old(buckets)[k]
    {
      ghost var cells, all := buckets, Contents();
      var todo := buckets.Keys;
      while todo != {}
        invariant todo <= cells.Keys
        invariant buckets == map k | k in cells && (k in todo || !Idle(all[k], now)) :: cells[k]
        decreases |todo|
      {
        var ip :| ip in todo;
        todo := todo - {ip};
        var b := buckets[ip];
        if b.water <= 0.0 && now - b.lastLeak > IDLE {
          buckets := buckets - {ip};
        }
      }
    }

    /** One tick of the background cleanup: no bucket is removed. */
    method Cleanup(now: Time)
      requires Valid() && NotBefore(now)
      modifies this
      ensures Valid() && buckets == old(buckets)
      ensures trace == old(trace) + [Event.Cleanup(now)]
      ensures states == old(states) + [Contents()]
    {
      ghost var all := Contents();
      NothingIdle(Settings(), trace, states, now);
      Sweep(now);
      assert Contents() == all;
      assert buckets.Keys == all.Keys;
      Record(Event.Cleanup(now));
    }
  }

  /** Leaking an IP's bucket at any later time gives the level of its own admissions. */
  lemma {:induction false} CurrentLevel(c: Config, es: seq<Event>, ms: seq<Store>, ip: string, now: Time)
    requires c.Valid() && IsRun(c, es, ms)
    requires es != [] ==> es[|es| - 1].now <= now
    ensures Leaked(c, ms[|es|], ip, now) == Level(c.rate, LiveHistory(es, ip), now)
  {
    RunInvariant(c, es, ms, ip, now);
    LeakedIsLevel(c, ms[|es|], ip, LiveHistory(es, ip), now, now);
  }

  lemma {:induction false} NothingIdle(c: Config, es: seq<Event>, ms: seq<Store>, now: Time)
    requires c.Valid() && IsRun(c, es, ms)
    requires es != [] ==> es[|es| - 1].now <= now
    ensures forall k :: k in ms[|es|] ==> !Idle(ms[|es|][k], now)
    ensures Swept(ms[|es|], now) == ms[|es|]
  {
    forall k | k in ms[|es|] ensures !Idle(ms[|es|][k], now) {
      RunInvariant(c, es, ms, k, now);
    }
  }
}
