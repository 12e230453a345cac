/** Metric keys: labels joined by pipes, and the split that recovers them. */
module MetricsKeys {

  const PIPE := '|'

  function Join(parts: seq<string>): string {
    if parts == [] then ""
    else if |parts| == 1 then parts[0]
    else parts[0] + "|" + Join(parts[1..])
  }

  /** The index of the first pipe, or the length if there is none. */
  function FirstPipe(s: string): (i: nat)
    ensures i <= |s| && (i < |s| ==> s[i] == PIPE)
    ensures forall k :: 0 <= k < i ==> s[k] != PIPE
  {
    if s == "" || s[0] == PIPE then 0 else 1 + FirstPipe(s[1..])
  }

  /** At most `n` fields: a cut at each pipe until one field is left for the rest. */
  function Fields(key: string, n: nat): seq<string>
    decreases n
  {
    var i := FirstPipe(key);
    if n <= 1 || i == |key| then [key] else [key[..i]] + Fields(key[i + 1..], n - 1)
  }

  /** What is still to come when `n` fields are left from `start` on. */
  function Rest(key: string, start: nat, n: nat): seq<string> {
    if start <= |key| then Fields(key[start..], n) else []
  }

  /** The first position from `start` on that holds a pipe, or the length. */
  method FindPipe(key: string, start: nat) returns (end: nat)
    requires start <= |key|
    ensures start <= end <= |key| && (end < |key| ==> key[end] == PIPE)
    ensures forall k :: start <= k < end ==> key[k] != PIPE
  {
    end := start;
    while end < |key| && key[end] != PIPE
      invariant start <= end <= |key|
      invariant forall k :: start <= k < end ==> key[k] != PIPE
    {
      end := end + 1;
    }
  }

  method SplitMetricsKey(key: string, n: nat) returns (parts: seq<string>)
    ensures parts == Fields(key, n)
  {
    parts := [];
    var start, i := 0, 0;
    ghost var all := Fields(key, n);
    assert Rest(key, 0, n) == all by {
      assert key[0..] == key;
    }
    while i < n - 1 && start < |key|
      invariant 0 <= i <= n && 0 <= start
      invariant parts + Rest(key, start, n - i) == all
      decreases n - i
    {
      var end := FindPipe(key, start);
      RestStep(key, start, end, n - i);
      parts := parts + [key[start..end]];
      start := end + 1;
      i := i + 1;
    }
    if start <= |key| {
      parts := parts + [key[start..]];
    }
  }

  lemma {:induction false} RestStep(key: string, start: nat, end: nat, n: nat)
    requires start <= end <= |key| && n > 1
    requires forall k :: start <= k < end ==> key[k] != PIPE
    requires end < |key| ==> key[end] == PIPE
    ensures Rest(key, start, n) == [key[start..end]] + Rest(key, end + 1, n - 1)
  {
    var s := key[start..];
    if end < |key| {
      assert s[..end - start] == key[start..end];
      assert s[end - start + 1..] == key[end + 1..];
    } else {
      assert s == key[start..end];
    }
  }

  // ---------------------------------------------------------------------------
  // Splitting and joining
  // ---------------------------------------------------------------------------

  /** Joining the fields gives the key back, whatever the key and the number of fields. */
  lemma {:induction false} JoinFields(key: string, n: nat)
    ensures Join(Fields(key, n)) == key
    decreases n
  {
    var i := FirstPipe(key);
    if n > 1 && i < |key| {
      var rest := key[i + 1..];
      JoinFields(rest, n - 1);
      assert Fields(key, n)[1..] == Fields(rest, n - 1);
      assert key == key[..i] + "|" + rest;
    }
  }

  ghost predicate PipeFree(parts: seq<string>) {
    forall i :: 0 <= i < |parts| ==> PIPE !in parts[i]
  }

  lemma {:induction false} FieldsPipeFree(key: string, n: nat)
    ensures PipeFree(Fields(key, n)[..|Fields(key, n)| - 1])
    decreases n
  {
    var i := FirstPipe(key);
    if n > 1 && i < |key| {
      FieldsPipeFree(key[i + 1..], n - 1);
      var rest := Fields(key[i + 1..], n - 1);
      var all := Fields(key, n);
      forall k | 0 <= k < |all| - 1 ensures PIPE !in all[k] {
        if k > 0 {
          assert all[k] == rest[k - 1] == rest[..|rest| - 1][k - 1];
        }
      }
    }
  }

  lemma {:induction false} FirstPipeOfJoin(head: string, rest: string)
    requires PIPE !in head
    ensures FirstPipe(head + "|" + rest) == |head|
  {
    var s := head + "|" + rest;
    assert s[|head|] == PIPE;
    assert forall k :: 0 <= k < |head| ==> s[k] == head[k];
  }

  lemma {:induction false} FieldsOfPair(head: string, rest: string, n: nat)
    requires PIPE !in head && n > 1
    ensures Fields(head + "|" + rest, n) == [head] + Fields(rest, n - 1)
  {
    var key := head + "|" + rest;
    FirstPipeOfJoin(head, rest);
    assert key[..|head|] == head && key[|head| + 1..] == rest;
  }

  lemma {:induction false} FieldsOfJoin(parts: seq<string>)
    requires parts != [] && PipeFree(parts[..|parts| - 1])
    ensures Fields(Join(parts), |parts|) == parts
  {
    if |parts| > 1 {
      var rest := parts[1..];
      assert PipeFree(rest[..|rest| - 1]) by {
        forall i | 0 <= i < |rest| - 1 ensures PIPE !in rest[i] {
          assert rest[i] == parts[..|parts| - 1][i + 1];
        }
      }
      FieldsOfJoin(rest);
      assert PIPE !in parts[0] by {
        assert parts[..|parts| - 1][0] == parts[0];
      }
      FieldsOfPair(parts[0], Join(rest), |parts|);
    }
  }

  /** Splitting a join gives the parts back exactly when none but the last contains a pipe. */
  lemma {:induction false} RoundTripIff(parts: seq<string>)
    requires parts != []
    ensures Fields(Join(parts), |parts|) == parts <==> PipeFree(parts[..|parts| - 1])
  {
    if PipeFree(parts[..|parts| - 1]) {
      FieldsOfJoin(parts);
    }
    FieldsPipeFree(Join(parts), |parts|);
  }

  function Pipes(s: string): nat {
    if s == "" then 0 else (if s[0] == PIPE then 1 else 0) + Pipes(s[1..])
  }

  lemma {:induction false} PipesAdd(s: string, t: string)
    ensures Pipes(s + t) == Pipes(s) + Pipes(t)
  {
    if s == "" {
      assert s + t == t;
    } else {
      assert (s + t)[1..] == s[1..] + t;
      PipesAdd(s[1..], t);
    }
  }

  lemma {:induction false} PipesZeroIff(s: string)
    ensures Pipes(s) == 0 <==> PIPE !in s
  {
    if s != "" {
      PipesZeroIff(s[1..]);
      assert s == [s[0]] + s[1..];
    }
  }

  lemma {:induction false} PipesFromFirst(s: string)
    ensures Pipes(s) == if FirstPipe(s) == |s| then 0 else 1 + Pipes(s[FirstPipe(s) + 1..])
  {
    if s != "" && s[0] != PIPE {
      PipesFromFirst(s[1..]);
      var i := FirstPipe(s[1..]);
      assert i < |s| - 1 ==> s[1..][i + 1..] == s[i + 2..];
    }
  }

  /** A key has as many fields as pipes plus one, but never more than asked for. */
  lemma {:induction false} FieldCount(key: string, n: nat)
    requires n >= 1
    ensures |Fields(key, n)| == if Pipes(key) + 1 <= n then Pipes(key) + 1 else n
    decreases n
  {
    PipesFromFirst(key);
    var i := FirstPipe(key);
    if n > 1 && i < |key| {
      FieldCount(key[i + 1..], n - 1);
    }
  }

  lemma {:induction false} JoinThree(a: string, b: string, c: string)
    ensures Join([a, b, c]) == a + "|" + b + "|" + c
  {
    assert [a, b, c][1..] == [b, c] && [b, c][1..] == [c];
    assert Join([b, c]) == b + "|" + c;
    assert a + "|" + (b + "|" + c) == a + "|" + b + "|" + c;
  }

  lemma {:induction false} ThreeFields(a: string, b: string, c: string)
    ensures |Fields(a + "|" + b + "|" + c, 3)| == 3
  {
    PipesAdd(a + "|" + b + "|", c);
    PipesAdd(a + "|" + b, "|");
    PipesAdd(a + "|", b);
    PipesAdd(a, "|");
    FieldCount(a + "|" + b + "|" + c, 3);
  }

  // ---------------------------------------------------------------------------
  // Keys that end in a label without pipes
  // ---------------------------------------------------------------------------

  lemma {:induction false} PipeAfter(a: string, x: string, b: string, y: string)
    requires '|' !in x && a + "|" + x == b + "|" + y
    ensures |b| <= |a|
  {
    var k := a + "|" + x;
    assert k[|b|] == '|';
    forall i | |a| < i < |k| ensures k[i] != '|' {
      assert k[i] == x[i - |a| - 1];
    }
  }

  /** Only the last pipe of a key separates, so a key determines target and state. */
  lemma {:induction false} SplitUnique(a: string, b: string, x: string, y: string)
    requires '|' !in x && '|' !in y && a + "|" + x == b + "|" + y
    ensures a == b && x == y
  {
    var k, l := a + "|" + x, b + "|" + y;
    PipeAfter(a, x, b, y);
    PipeAfter(b, y, a, x);
    assert k[..|a|] == a && l[..|b|] == b;
    assert k[|a| + 1..] == x && l[|b| + 1..] == y;
  }
}
