/** The command palette's fuzzy score: which targets match a query, and how the scores rank. */
module FuzzySearch {
  import opened Common

  /** Strictly increasing positions of `t` that spell the beginning of `q`. */
  ghost predicate Embeds(q: string, t: string, ps: seq<int>) {
    && |ps| <= |q|
    && (forall k :: 0 <= k < |ps| ==> 0 <= ps[k] < |t| && t[ps[k]] == q[k])
    && (forall j, k :: 0 <= j < k < |ps| ==> ps[j] < ps[k])
  }

  ghost predicate Subsequence(q: string, t: string) {
    exists ps: seq<int> :: |ps| == |q| && Embeds(q, t, ps)
  }

  /** The positions the left-to-right scan has matched after all of `t`. */
  function Greedy(q: string, t: string): (ps: seq<int>)
    ensures |ps| <= |q|
  {
    if t == "" then []
    else
      var n := |t| - 1;
      var ps := Greedy(q, t[..n]);
      if |ps| < |q| && t[n] == q[|ps|] then ps + [n] else ps
  }

  /** The length of the run of adjacent positions at the end. */
  function LastRun(ps: seq<int>): nat {
    if ps == [] then 0
    else
      var n := |ps| - 1;
      if n > 0 && ps[n] == ps[n - 1] + 1 then LastRun(ps[..n]) + 1 else 1
  }

  /** Two points for each position that starts a run, five times the run's length for each that extends it. */
  function Points(ps: seq<int>): nat {
    if ps == [] then 0
    else
      var n := |ps| - 1;
      Points(ps[..n]) + if n > 0 && ps[n] == ps[n - 1] + 1 then 5 * LastRun(ps) else 2
  }

  /** The score of a lowered query against a lowered target. */
  function Rank(q: string, t: string): nat {
    if t == q then 100
    else if q <= t then 80
    else if Includes(t, q) then 60
    else if |Greedy(q, t)| < |q| then 0
    else Points(Greedy(q, t))
  }

  function Score(lower: string -> string, query: string, target: string): nat {
    if query == "" || target == "" then 0 else Rank(lower(query), lower(target))
  }

  /** Matches the query's characters from left to right, and scores the matches. */
  method Scan(q: string, t: string) returns (qIdx: nat, score: nat)
    ensures qIdx == |Greedy(q, t)| && score == Points(Greedy(q, t))
  {
    qIdx, score := 0, 0;
    var consecutive, lastMatchIdx, i := 0, -2, 0;
    ghost var ps: seq<int> := [];
    while i < |t| && qIdx < |q|
      invariant 0 <= i <= |t| && qIdx == |ps|
      invariant ps == Greedy(q, t[..i])
      invariant score == Points(ps) && consecutive == LastRun(ps)
      invariant lastMatchIdx == if ps == [] then -2 else ps[|ps| - 1]
      invariant lastMatchIdx < i
    {
      assert t[..i + 1][..i] == t[..i];
      if t[i] == q[qIdx] {
        ghost var before := ps;
        ps := ps + [i];
        assert ps[..|ps| - 1] == before;
        qIdx := qIdx + 1;
        if i == lastMatchIdx + 1 {
          consecutive := consecutive + 1;
          score := score + consecutive * 5;
        } else {
          consecutive := 1;
          score := score + 2;
        }
        lastMatchIdx := i;
      }
      i := i + 1;
    }
    GreedyStops(q, t, i);
  }

  method FuzzyScore(lower: string -> string, query: string, target: string) returns (score: nat)
    ensures score == Score(lower, query, target)
    ensures score > 0 <==> query != "" && target != "" && Subsequence(lower(query), lower(target))
  {
    PositiveIffSubsequence(lower, query, target);
    if |query| == 0 || |target| == 0 {
      return 0;
    }
    var q := lower(query);
    var t := lower(target);
    if t == q {
      return 100;
    }
    if q <= t {
      return 80;
    }
    if Includes(t, q) {
      return 60;
    }
    var qIdx;
    qIdx, score := Scan(q, t);
    if qIdx < |q| {
      return 0;
    }
  }

  /** Once the whole query is matched, the rest of the target changes nothing. */
  lemma {:induction false} GreedyStops(q: string, t: string, i: nat)
    requires i <= |t| && (i == |t| || |Greedy(q, t[..i])| == |q|)
    ensures Greedy(q, t) == Greedy(q, t[..i])
    decreases |t|
  {
    if i == |t| {
      assert t[..i] == t;
    } else {
      var n := |t| - 1;
      assert t[..n][..i] == t[..i];
      GreedyStops(q, t[..n], i);
    }
  }

  // ---------------------------------------------------------------------------
  // Greedy matching loses nothing
  // ---------------------------------------------------------------------------

  /** The scan's positions spell a prefix of the query. */
  lemma {:induction false} GreedyEmbeds(q: string, t: string)
    ensures Embeds(q, t, Greedy(q, t))
  {
    if t != "" {
      GreedyEmbeds(q, t[..|t| - 1]);
    }
  }

  lemma {:induction false} EmbedsInit(q: string, t: string, ps: seq<int>)
    requires t != "" && ps != [] && Embeds(q, t, ps)
    ensures var n, m := |t| - 1, |ps| - 1;
            if ps[m] < n then Embeds(q, t[..n], ps) else Embeds(q, t[..n], ps[..m]) && t[n] == q[m]
  {
    var m := |ps| - 1;
    assert forall k :: 0 <= k < m ==> ps[k] < ps[m];
  }

  /** At least as many positions, none of them later. */
  ghost predicate AtOrBefore(g: seq<int>, ps: seq<int>) {
    |ps| <= |g| && forall k :: 0 <= k < |ps| ==> g[k] <= ps[k]
  }

  /** Any way to spell a prefix of the query is matched by the scan, and nowhere earlier than by it. */
  lemma {:induction false} GreedyLeftmost(q: string, t: string, ps: seq<int>)
    requires Embeds(q, t, ps)
    ensures AtOrBefore(Greedy(q, t), ps)
    decreases |t|
  {
    assert ps != [] ==> 0 <= ps[0] < |t|;
    if t != "" && ps != [] {
      var n, m := |t| - 1, |ps| - 1;
      var before := Greedy(q, t[..n]);
      EmbedsInit(q, t, ps);
      assert AtOrBefore(before, if ps[m] < n then ps else ps[..m]) by {
        GreedyLeftmost(q, t[..n], if ps[m] < n then ps else ps[..m]);
      }
      assert |before| > m ==> before[m] < n by {
        GreedyEmbeds(q, t[..n]);
      }
      ScanCatches(q, t, before, ps);
    }
  }

  lemma {:induction false} ScanCatches(q: string, t: string, before: seq<int>, ps: seq<int>)
    requires t != "" && ps != [] && |ps| <= |q|
    requires before == Greedy(q, t[..|t| - 1])
    requires var n, m := |t| - 1, |ps| - 1;
             if ps[m] < n then AtOrBefore(before, ps)
             else AtOrBefore(before, ps[..m]) && t[n] == q[m] && (|before| > m ==> before[m] < n)
    ensures AtOrBefore(Greedy(q, t), ps)
  {
    var m := |ps| - 1;
    if ps[m] >= |t| - 1 {
      assert forall k :: 0 <= k < m ==> before[k] <= ps[..m][k];
    }
  }

  lemma {:induction false} SubsequenceIffGreedy(q: string, t: string)
    ensures Subsequence(q, t) <==> |Greedy(q, t)| == |q|
  {
    if ps :| |ps| == |q| && Embeds(q, t, ps) {
      GreedyLeftmost(q, t, ps);
    }
    if |Greedy(q, t)| == |q| {
      GreedyEmbeds(q, t);
    }
  }

  lemma {:induction false} SubstringEmbeds(q: string, t: string, i: nat)
    requires i + |q| <= |t| && t[i..][..|q|] == q
    ensures Subsequence(q, t)
  {
    var ps := seq(|q|, k requires 0 <= k < |q| => i + k);
    forall k | 0 <= k < |q| ensures t[ps[k]] == q[k] {
      assert t[i..][..|q|][k] == t[i + k];
    }
    assert Embeds(q, t, ps);
  }

  /**
   The score is positive exactly when neither string is empty and the lowered query is
   a subsequence of the lowered target.
   */
  lemma {:induction false} PositiveIffSubsequence(lower: string -> string, query: string, target: string)
    ensures Score(lower, query, target) > 0 <==>
            query != "" && target != "" && Subsequence(lower(query), lower(target))
  {
    var q, t := lower(query), lower(target);
    SubsequenceIffGreedy(q, t);
    if q <= t {
      assert t[0..][..|q|] == q;
      SubstringEmbeds(q, t, 0);
    } else if i :| 0 <= i <= |t| - |q| && t[i..][..|q|] == q {
      SubstringEmbeds(q, t, i);
    } else {
      PointsAtLeast(Greedy(q, t));
    }
  }

  lemma {:induction false} PointsAtLeast(ps: seq<int>)
    ensures Points(ps) >= 2 * |ps|
    ensures ps != [] ==> LastRun(ps) >= 1
  {
    if ps != [] {
      PointsAtLeast(ps[..|ps| - 1]);
    }
  }

  // ---------------------------------------------------------------------------
  // How high a scattered match can score
  // ---------------------------------------------------------------------------

  /** The points of a single run. */
  function RunPoints(k: nat): nat {
    if k == 0 then 0 else if k == 1 then 2 else RunPoints(k - 1) + 5 * k
  }

  lemma {:induction false} RunPointsClosed(k: nat)
    requires k >= 1
    ensures 2 * RunPoints(k) == 5 * k * (k + 1) - 6
  {
    if k > 1 {
      RunPointsClosed(k - 1);
    }
  }

  /** Moving a position from the shorter run to the longer one gains points. */
  lemma {:induction false} RunsMerge(a: nat, b: nat)
    requires a >= 1 && b >= 1
    ensures RunPoints(a) + RunPoints(b) <= RunPoints(a + b - 1) + 2
    decreases b
  {
    if b > 1 {
      RunsMerge(a, b - 1);
      assert RunPoints(a + b - 1) == RunPoints(a + b - 2) + 5 * (a + b - 1);
    }
  }

  /** All positions adjacent, or at least one gap. */
  ghost predicate Adjacent(ps: seq<int>) {
    LastRun(ps) == |ps|
  }

  lemma {:induction false} PointsAtMost(ps: seq<int>)
    requires ps != []
    ensures 1 <= LastRun(ps) <= |ps|
    ensures Adjacent(ps) ==> Points(ps) == RunPoints(|ps|)
    ensures !Adjacent(ps) ==> Points(ps) <= RunPoints(|ps| - LastRun(ps)) + RunPoints(LastRun(ps))
  {
    var n := |ps| - 1;
    if n > 0 {
      var init := ps[..n];
      PointsAtMost(init);
      if !Adjacent(init) {
        RunsMerge(|init| - LastRun(init), LastRun(init));
      }
    } else {
      assert ps[..0] == [];
    }
  }

  lemma {:induction false} AdjacentPositions(ps: seq<int>)
    requires Adjacent(ps)
    ensures forall k :: 0 <= k < |ps| ==> ps[k] == ps[0] + k
  {
    if |ps| > 1 {
      PointsAtMost(ps[..|ps| - 1]);
      AdjacentPositions(ps[..|ps| - 1]);
    }
  }

  /** The query is matched, but not as a substring. */
  ghost predicate Scattered(q: string, t: string) {
    q != "" && Subsequence(q, t) && !Includes(t, q)
  }

  lemma {:induction false} AdjacentIsSubstring(q: string, t: string, ps: seq<int>)
    requires q != "" && |ps| == |q| && Embeds(q, t, ps) && Adjacent(ps)
    ensures Includes(t, q)
  {
    var i := ps[0];
    AdjacentPositions(ps);
    assert ps[|q| - 1] == i + |q| - 1;
    forall k | 0 <= k < |q| ensures t[i..][..|q|][k] == q[k] {
      assert ps[k] == i + k;
    }
    assert t[i..][..|q|] == q;
  }

  lemma {:induction false} PrefixIsSubstring(q: string, t: string)
    requires q <= t
    ensures Includes(t, q)
  {
    assert t[0..][..|q|] == q;
  }

  lemma {:induction false} RankOfScan(q: string, t: string)
    requires |Greedy(q, t)| == |q| && !Includes(t, q)
    ensures Rank(q, t) == Points(Greedy(q, t))
  {
    if q <= t {
      PrefixIsSubstring(q, t);
    }
  }

  /** A scattered match is ranked by the points of positions that have at least one gap. */
  lemma {:induction false} ScatteredRank(q: string, t: string) returns (ps: seq<int>)
    requires Scattered(q, t)
    ensures |ps| == |q| && !Adjacent(ps) && Rank(q, t) == Points(ps)
  {
    ps := Greedy(q, t);
    SubsequenceIffGreedy(q, t);
    GreedyEmbeds(q, t);
    RankOfScan(q, t);
    if Adjacent(ps) {
      AdjacentIsSubstring(q, t, ps);
    }
  }

  lemma {:induction false} GappedPoints(ps: seq<int>)
    requires ps != [] && !Adjacent(ps)
    ensures |ps| >= 2 && 2 * |ps| <= Points(ps) <= RunPoints(|ps| - 1) + 2
  {
    PointsAtLeast(ps);
    PointsAtMost(ps);
    RunsMerge(|ps| - LastRun(ps), LastRun(ps));
  }

  /** A run of all letters but one, and that one by itself, score highest. */
  lemma {:induction false} ScatteredRunBounds(q: string, t: string)
    requires Scattered(q, t)
    ensures |q| >= 2
    ensures 2 * |q| <= Rank(q, t) <= RunPoints(|q| - 1) + 2
  {
    var ps := ScatteredRank(q, t);
    ghost var score := Rank(q, t);
    GappedPoints(ps);
    assert 2 * |q| <= score <= RunPoints(|q| - 1) + 2;
  }

  lemma {:induction false} RunBound(m: nat, score: int)
    requires m >= 2
    ensures score <= RunPoints(m - 1) + 2 <==> 2 * score <= 5 * m * (m - 1) - 2
    ensures score == RunPoints(m - 1) + 2 <==> 2 * score == 5 * m * (m - 1) - 2
  {
    RunPointsClosed(m - 1);
    var n := m - 1;
    assert 5 * n * (n + 1) == 5 * m * (m - 1);
  }

  /** A scattered match of a query of length `m` has m >= 2 and scores from 2m to 5m(m - 1)/2 - 1. */
  lemma {:induction false} ScatteredBounds(q: string, t: string)
    requires Scattered(q, t)
    ensures |q| >= 2
    ensures 2 * |q| <= Rank(q, t) && 2 * Rank(q, t) <= 5 * |q| * (|q| - 1) - 2
  {
    var m, score := |q|, Rank(q, t);
    assert m >= 2 && 2 * m <= score <= RunPoints(m - 1) + 2 by {
      ScatteredRunBounds(q, t);
    }
    RunBound(m, score);
  }

  /** For every length the upper bound is met. */
  lemma {:induction false} BoundIsMet(m: nat) returns (q: string, t: string)
    requires m >= 2
    ensures |q| == m && Scattered(q, t) && 2 * Rank(q, t) == 5 * m * (m - 1) - 2
  {
    q, t := GapExample(m - 1);
    RunBound(m, Rank(q, t));
  }

  // ---------------------------------------------------------------------------
  // The bound is met, so long scattered matches outrank substrings
  // ---------------------------------------------------------------------------

  function Repeat(n: nat): string {
    if n == 0 then "" else Repeat(n - 1) + "a"
  }

  lemma {:induction false} RepeatIs(n: nat)
    ensures |Repeat(n)| == n && forall k :: 0 <= k < n ==> Repeat(n)[k] == 'a'
  {
    if n > 0 {
      RepeatIs(n - 1);
    }
  }

  /** The first `n` positions. */
  function Run(n: nat): seq<int> {
    seq(n, i => i)
  }

  lemma {:induction false} RunExtend(n: nat)
    ensures Run(n + 1) == Run(n) + [n]
  {
  }

  lemma {:induction false} RunScores(n: nat)
    ensures LastRun(Run(n)) == n && Points(Run(n)) == RunPoints(n)
  {
    if n > 0 {
      var ps := Run(n);
      RunExtend(n - 1);
      RunScores(n - 1);
      assert ps[..n - 1] == Run(n - 1);
    }
  }

  /** `n` letters in a row, and one more after a gap. */
  lemma {:induction false} GapExample(n: nat) returns (q: string, t: string)
    requires n >= 1
    ensures |q| == n + 1 && Scattered(q, t) && Rank(q, t) == RunPoints(n) + 2
  {
    RepeatIs(n);
    q, t := Repeat(n) + "b", Repeat(n) + "cb";
    GapScan(n);
    forall i | 0 <= i <= |t| - |q| ensures t[i..][..|q|] != q {
      if i == 0 {
        assert t[0..][..|q|][n] == 'c' && q[n] == 'b';
      } else {
        assert t[1..][..|q|][n - 1] == 'c' && q[n - 1] == 'a';
      }
    }
    RunScores(n);
    assert (Run(n) + [n + 1])[..n] == Run(n);
    SubsequenceIffGreedy(q, t);
    RankOfScan(q, t);
  }

  lemma {:induction false} ScanExtend(q: string, t: string, ch: char)
    ensures var ps := Greedy(q, t);
            Greedy(q, t + [ch]) == if |ps| < |q| && ch == q[|ps|] then ps + [|t|] else ps
  {
    assert (t + [ch])[..|t|] == t;
  }

  lemma {:induction false} GapScan(n: nat)
    requires n >= 1
    ensures Greedy(Repeat(n) + "b", Repeat(n) + "cb") == Run(n) + [n + 1]
  {
    var r := Repeat(n);
    var q, t := r + "b", r + "c";
    RepeatIs(n);
    RepeatScan(q, n);
    ScanExtend(q, r, 'c');
    ScanExtend(q, t, 'b');
    assert r + "cb" == t + "b";
  }

  lemma {:induction false} RepeatScan(q: string, n: nat)
    requires n <= |q| && forall k :: 0 <= k < n ==> q[k] == 'a'
    ensures Greedy(q, Repeat(n)) == Run(n)
  {
    if n > 0 {
      RepeatScan(q, n - 1);
      RepeatIs(n - 1);
      ScanExtend(q, Repeat(n - 1), 'a');
      RunExtend(n - 1);
    }
  }

  lemma {:induction false} RunPointsMonotone(j: nat, k: nat)
    requires j <= k
    ensures RunPoints(j) <= RunPoints(k)
  {
    if j < k {
      RunPointsMonotone(j, k - 1);
    }
  }

  /** Every scattered match of a query of a given length ranks below a substring match. */
  ghost predicate RanksBelowSubstrings(m: nat) {
    forall q: string, t: string :: |q| == m && Scattered(q, t) ==> Rank(q, t) < 60
  }

  /** Scattered matches rank below substring matches exactly for queries of at most five letters. */
  lemma {:induction false} SubstringsFirstIffShort(m: nat)
    ensures RanksBelowSubstrings(m) <==> m <= 5
  {
    assert RunPoints(4) == 47 && RunPoints(5) == 72;
    if m <= 5 {
      forall q: string, t: string | |q| == m && Scattered(q, t) ensures Rank(q, t) < 60 {
        ScatteredRunBounds(q, t);
        RunPointsMonotone(m - 1, 4);
      }
    } else {
      var q, t := GapExample(m - 1);
      RunPointsMonotone(5, m - 1);
    }
  }

  /** How well a target matches: equal, or it starts with, contains or only spells the query. */
  ghost function Kind(q: string, t: string): nat {
    if t == q then 4
    else if q <= t then 3
    else if Includes(t, q) then 2
    else if Subsequence(q, t) then 1
    else 0
  }

  ghost predicate InOrder(q: string, t1: string, t2: string) {
    Kind(q, t1) > Kind(q, t2) ==> Rank(q, t1) > Rank(q, t2)
  }

  lemma {:induction false} RankOfKind(q: string, t: string)
    requires |q| <= 5
    ensures Kind(q, t) == 0 ==> Rank(q, t) == 0
    ensures Kind(q, t) == 1 ==> 0 < Rank(q, t) < 60
    ensures Kind(q, t) >= 2 ==> Rank(q, t) == 20 + 20 * Kind(q, t)
  {
    SubsequenceIffGreedy(q, t);
    if Kind(q, t) == 1 {
      SubstringsFirstIffShort(|q|);
      ScatteredBounds(q, t);
    }
  }

  /** A query that does not begin like the target can still be contained in it. */
  lemma {:induction false} ContainedKind(q: string) returns (t: string)
    requires q != ""
    ensures Kind(q, t) == 2
  {
    var c := if q[0] == 'a' then 'b' else 'a';
    t := [c] + q;
    assert t[1..][..|q|] == q;
    assert Includes(t, q);
    assert t[0] != q[0];
  }

  lemma {:induction false} ShortInOrder(q: string, t1: string, t2: string)
    requires |q| <= 5
    ensures InOrder(q, t1, t2)
  {
    RankOfKind(q, t1);
    RankOfKind(q, t2);
  }

  lemma {:induction false} LongOutOfOrder(m: nat) returns (q: string, t1: string, t2: string)
    requires m > 5
    ensures |q| == m && !InOrder(q, t1, t2)
  {
    q, t2 := GapExample(m - 1);
    t1 := ContainedKind(q);
    RunPointsMonotone(5, m - 1);
    assert RunPoints(5) == 72;
    assert Rank(q, t2) >= 74;
    assert Rank(q, t1) == 60;
    assert Kind(q, t2) == 1 by {
      if q <= t2 {
        PrefixIsSubstring(q, t2);
      }
    }
  }

  /** Scores rank targets by the kind of match exactly for queries of at most five letters. */
  lemma {:induction false} RanksByKindIffShort(m: nat)
    ensures (forall q: string, t1: string, t2: string :: |q| == m ==> InOrder(q, t1, t2)) <==> m <= 5
  {
    if m <= 5 {
      forall q: string, t1: string, t2: string | |q| == m ensures InOrder(q, t1, t2) {
        ShortInOrder(q, t1, t2);
      }
    } else {
      var q, t1, t2 := LongOutOfOrder(m);
    }
  }

  /** Every scattered match of a query of length `m` ranks below the exact one. */
  ghost predicate RanksBelowExact(m: nat) {
    forall q: string, t: string :: |q| == m && Scattered(q, t) ==> Rank(q, t) < Rank(q, q)
  }

  /** Scattered matches rank below the exact one exactly for queries of at most six letters. */
  lemma {:induction false} ExactFirstIffShort(m: nat)
    ensures RanksBelowExact(m) <==> m <= 6
  {
    assert RunPoints(5) == 72 && RunPoints(6) == 102;
    if m <= 6 {
      forall q: string, t: string | |q| == m && Scattered(q, t) ensures Rank(q, t) < Rank(q, q) {
        ScatteredRunBounds(q, t);
        RunPointsMonotone(m - 1, 5);
      }
    } else {
      var q, t := GapExample(m - 1);
      RunPointsMonotone(6, m - 1);
    }
  }
}
