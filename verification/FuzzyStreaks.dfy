/** The score of a scattered match, read off its streaks of adjacent characters. */
module FuzzyStreaks {
  import opened FuzzySearch

  /** Some adjacent positions. */
  datatype Streak = Streak(start: int, length: nat)

  function Positions(r: Streak): seq<int> {
    seq(r.length, i => r.start + i)
  }

  function AllPositions(rs: seq<Streak>): seq<int> {
    if rs == [] then [] else AllPositions(rs[..|rs| - 1]) + Positions(rs[|rs| - 1])
  }

  /** The streaks are in order with a gap between any two, so none can be longer. */
  predicate Apart(rs: seq<Streak>) {
    && (forall i :: 0 <= i < |rs| ==> rs[i].length >= 1)
    && (forall i :: 0 < i < |rs| ==> rs[i - 1].start + rs[i - 1].length < rs[i].start)
  }

  /** 2 for a single character, 2 + 10 for two, 2 + 10 + 15 for three, and so on. */
  function Worth(length: nat): int
  {
    (5 * length * (length + 1) - 6) / 2
  }

  function TotalWorth(rs: seq<Streak>): int {
    if rs == [] then 0 else TotalWorth(rs[..|rs| - 1]) + Worth(rs[|rs| - 1].length)
  }

  // ---------------------------------------------------------------------------
  // Points add up over gaps
  // ---------------------------------------------------------------------------

  /** What comes before a gap and what comes after it score on their own. */
  lemma {:induction false} PointsAddUp(a: seq<int>, b: seq<int>)
    requires a != [] && b != [] && b[0] != a[|a| - 1] + 1
    ensures Points(a + b) == Points(a) + Points(b)
    ensures LastRun(a + b) == LastRun(b)
  {
    var n := |b| - 1;
    var all := a + b;
    assert all[..|all| - 1] == a + b[..n];
    if n == 0 {
      assert a + b[..0] == a && b[..0] == [];
    } else {
      PointsAddUp(a, b[..n]);
      assert all[|all| - 1] == b[n] && all[|all| - 2] == b[n - 1];
    }
  }

  lemma {:induction false} StreakPoints(r: Streak)
    requires r.length >= 1
    ensures Points(Positions(r)) == Worth(r.length) && LastRun(Positions(r)) == r.length
  {
    StreakRun(r);
    PointsAtMost(Positions(r));
    RunPointsClosed(r.length);
  }

  lemma {:induction false} StreakRun(r: Streak)
    ensures LastRun(Positions(r)) == r.length
    decreases r.length
  {
    if r.length > 0 {
      var shorter := Streak(r.start, r.length - 1);
      assert Positions(r)[..r.length - 1] == Positions(shorter);
      StreakRun(shorter);
    }
  }

  lemma {:induction false} LastPosition(rs: seq<Streak>)
    requires rs != [] && Apart(rs)
    ensures var ps, r := AllPositions(rs), rs[|rs| - 1];
            ps != [] && ps[|ps| - 1] == r.start + r.length - 1
  {
  }

  /** The points of some positions are what their streaks are worth. */
  lemma {:induction false} PointsAreWorth(rs: seq<Streak>)
    requires Apart(rs)
    ensures Points(AllPositions(rs)) == TotalWorth(rs)
  {
    if rs != [] {
      var init, r := rs[..|rs| - 1], rs[|rs| - 1];
      PointsAreWorth(init);
      StreakPoints(r);
      if init == [] {
        assert AllPositions(rs) == Positions(r);
      } else {
        LastPosition(init);
        PointsAddUp(AllPositions(init), Positions(r));
      }
    }
  }

  // ---------------------------------------------------------------------------
  // Every match is made of streaks
  // ---------------------------------------------------------------------------

  ghost predicate Increasing(ps: seq<int>) {
    forall j, k :: 0 <= j < k < |ps| ==> ps[j] < ps[k]
  }

  lemma {:induction false} StreaksOf(ps: seq<int>) returns (rs: seq<Streak>)
    requires Increasing(ps)
    ensures Apart(rs) && AllPositions(rs) == ps
  {
    if ps == [] {
      rs := [];
    } else {
      var n := |ps| - 1;
      rs := StreaksOf(ps[..n]);
      if n > 0 {
        var m := |rs| - 1;
        LastPosition(rs);
        if ps[n] == ps[n - 1] + 1 {
          var longer := Streak(rs[m].start, rs[m].length + 1);
          assert Positions(longer) == Positions(rs[m]) + [ps[n]];
          rs := rs[..m] + [longer];
          assert rs[..m + 1 - 1] == rs[..m];
        } else {
          rs := Another(rs, ps[n]);
        }
      } else {
        rs := Another(rs, ps[n]);
      }
      assert ps == ps[..n] + [ps[n]];
    }
  }

  lemma {:induction false} Another(rs: seq<Streak>, p: int) returns (rs': seq<Streak>)
    requires Apart(rs) && (rs != [] ==> rs[|rs| - 1].start + rs[|rs| - 1].length < p)
    ensures Apart(rs') && AllPositions(rs') == AllPositions(rs) + [p]
  {
    rs' := rs + [Streak(p, 1)];
    assert rs'[..|rs|] == rs && Positions(Streak(p, 1)) == [p];
  }

  // ---------------------------------------------------------------------------
  // The score
  // ---------------------------------------------------------------------------

  /** The streaks spell the query in the target, each character as early as in any other way to spell it. */
  ghost predicate LeftmostMatch(q: string, t: string, rs: seq<Streak>) {
    var ps := AllPositions(rs);
    && Apart(rs) && |ps| == |q| && Embeds(q, t, ps)
    && forall other: seq<int> :: |other| == |q| && Embeds(q, t, other) ==> AtOrBefore(ps, other)
  }

  lemma {:induction false} LeftmostIsGreedy(q: string, t: string, rs: seq<Streak>)
    requires LeftmostMatch(q, t, rs)
    ensures AllPositions(rs) == Greedy(q, t)
  {
    var ps, g := AllPositions(rs), Greedy(q, t);
    GreedyLeftmost(q, t, ps);
    GreedyEmbeds(q, t);
    assert AtOrBefore(ps, g) && AtOrBefore(g, ps);
  }

  /** A query that is matched but not contained scores what the streaks of its leftmost match are worth. */
  lemma {:induction false} ScatteredScore(q: string, t: string, rs: seq<Streak>)
    requires Scattered(q, t) && LeftmostMatch(q, t, rs)
    ensures Rank(q, t) == TotalWorth(rs)
  {
    SubsequenceIffGreedy(q, t);
    LeftmostIsGreedy(q, t, rs);
    RankOfScan(q, t);
    PointsAreWorth(rs);
  }

  /** Every query that is a subsequence of the target has such a match. */
  lemma {:induction false} LeftmostExists(q: string, t: string) returns (rs: seq<Streak>)
    requires Subsequence(q, t)
    ensures LeftmostMatch(q, t, rs)
  {
    SubsequenceIffGreedy(q, t);
    GreedyEmbeds(q, t);
    rs := StreaksOf(Greedy(q, t));
    forall other: seq<int> | |other| == |q| && Embeds(q, t, other) ensures AtOrBefore(Greedy(q, t), other) {
      GreedyLeftmost(q, t, other);
    }
  }
}
