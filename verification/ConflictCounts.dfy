/** How often each conflict is reported. */
module ConflictCounts {
  import opened TargetingRules
  import opened RuleConflicts

  // ---------------------------------------------------------------------------
  // Counting
  // ---------------------------------------------------------------------------

  function Hits(hit: int -> bool, n: nat): set<int> {
    set k | 0 <= k < n && hit(k)
  }

  /** Pairs of numbers below `n`, the larger one first. */
  function PairHits(hit: (int, int) -> bool, n: nat): set<(int, int)> {
    set i, j | 0 <= i < n && 0 <= j < i && hit(i, j) :: (i, j)
  }

  lemma {:induction false} HitsNext(hit: int -> bool, n: nat)
    ensures |Hits(hit, n + 1)| == |Hits(hit, n)| + if hit(n) then 1 else 0
  {
    assert Hits(hit, n + 1) == Hits(hit, n) + if hit(n) then {n as int} else {};
  }

  function Tagged<T>(i: int, js: set<T>): set<(int, T)> {
    set j | j in js :: (i, j)
  }

  lemma {:induction false} TaggedSize<T>(i: int, js: set<T>)
    ensures |Tagged(i, js)| == |js|
  {
    if js == {} {
      assert Tagged(i, js) == {};
    } else {
      var k :| k in js;
      TaggedSize(i, js - {k});
      assert Tagged(i, js) == Tagged(i, js - {k}) + {(i, k)};
    }
  }

  /** The part of a test on pairs that fixes the larger number. */
  function RowOf(hit: (int, int) -> bool, i: int): int -> bool {
    j => hit(i, j)
  }

  lemma {:induction false} PairHitsNext(hit: (int, int) -> bool, n: nat)
    ensures |PairHits(hit, n + 1)| == |PairHits(hit, n)| + |Hits(RowOf(hit, n), n)|
  {
    var row := Hits(RowOf(hit, n), n);
    TaggedSize(n, row);
    forall p ensures p in PairHits(hit, n + 1) <==> p in PairHits(hit, n) || p in Tagged(n, row) {
      assert p == (p.0, p.1);
    }
    assert PairHits(hit, n + 1) == PairHits(hit, n) + Tagged(n, row);
    assert PairHits(hit, n) !! Tagged(n, row);
  }

  ghost predicate AddsRow(total: int -> int, own: int -> bool, pair: (int, int) -> bool, k: nat) {
    total(k + 1) == total(k) + (if own(k) then 1 else 0) + |Hits(RowOf(pair, k), k)|
  }

  lemma {:induction false} CountsPairs(total: int -> int, own: int -> bool, pair: (int, int) -> bool, n: nat)
    requires total(0) == 0 && forall k: nat :: k < n ==> AddsRow(total, own, pair, k)
    ensures total(n) == |Hits(own, n)| + |PairHits(pair, n)|
  {
    if n == 0 {
      assert Hits(own, n) == {} && PairHits(pair, n) == {};
    } else {
      CountsPairs(total, own, pair, n - 1);
      HitsNext(own, n - 1);
      PairHitsNext(pair, n - 1);
      assert AddsRow(total, own, pair, n - 1);
    }
  }

  lemma {:induction false} OnlyPair(hit: (int, int) -> bool, n: nat, i: nat, j: nat)
    requires j < i < n && forall k, l :: 0 <= k < n && 0 <= l < k && hit(k, l) ==> k == i && l == j
    ensures |PairHits(hit, n)| == if hit(i, j) then 1 else 0
  {
    if hit(i, j) {
      assert PairHits(hit, n) == {(i as int, j as int)};
    } else {
      assert PairHits(hit, n) == {};
    }
  }

  lemma {:induction false} NoPairs(hit: (int, int) -> bool, n: nat)
    requires forall k, l :: 0 <= k < n && 0 <= l < k ==> !hit(k, l)
    ensures |PairHits(hit, n)| == 0
  {
    assert PairHits(hit, n) == {};
  }

  // ---------------------------------------------------------------------------
  // Counting reports
  // ---------------------------------------------------------------------------

  /** How often `c` occurs in a list. */
  function Occurrences(cs: seq<Conflict>, c: Conflict): nat {
    multiset(cs)[c]
  }

  lemma {:induction false} PairReportShort(ev: Evaluator, rule: Rule, higher: Rule, users: seq<User>)
    ensures |PairReport(ev, rule, higher, users)| <= 1
    ensures forall c :: c in PairReport(ev, rule, higher, users) ==>
              c.ruleIds == [rule.id, higher.id] && rule.percentage != 0.0 && higher.percentage != 0.0
              && c.kind != DeadRule
  {
  }

  /** Whether `c` is the report about a rule by itself. */
  function OwnTest(sorted: seq<Rule>, c: Conflict): int -> bool {
    i => 0 <= i < |sorted| && c in OwnReport(sorted[i])
  }

  /** Whether `c` is the report about a rule and another one. */
  function PairTest(ev: Evaluator, sorted: seq<Rule>, users: seq<User>, c: Conflict): (int, int) -> bool {
    (i, j) => 0 <= i < |sorted| && 0 <= j < |sorted| && c in PairReport(ev, sorted[i], sorted[j], users)
  }

  ghost predicate HitIs(ev: Evaluator, sorted: seq<Rule>, users: seq<User>, i: nat, j: nat, c: Conflict,
                        hit: int -> bool)
    requires i < |sorted| && j < |sorted|
  {
    hit(j) <==> c in PairReport(ev, sorted[i], sorted[j], users)
  }

  lemma {:induction false} PairOccurrences(ev: Evaluator, sorted: seq<Rule>, users: seq<User>, i: nat, j: nat,
                                           c: Conflict)
    requires i < |sorted| && j < |sorted|
    ensures Occurrences(PairReports(ev, sorted, users, i, j + 1), c)
         == Occurrences(PairReports(ev, sorted, users, i, j), c)
            + if c in PairReport(ev, sorted[i], sorted[j], users) then 1 else 0
  {
    PairReportShort(ev, sorted[i], sorted[j], users);
  }

  lemma {:induction false} RowCountFor(ev: Evaluator, sorted: seq<Rule>, users: seq<User>, i: nat, m: nat, c: Conflict,
                                       hit: int -> bool)
    requires i < |sorted| && m <= |sorted|
    requires forall j: nat :: j < |sorted| ==> HitIs(ev, sorted, users, i, j, c, hit)
    ensures Occurrences(PairReports(ev, sorted, users, i, m), c) == |Hits(hit, m)|
  {
    if m == 0 {
      assert Hits(hit, m) == {};
    } else {
      RowCountFor(ev, sorted, users, i, m - 1, c, hit);
      assert HitIs(ev, sorted, users, i, m - 1, c, hit);
      PairOccurrences(ev, sorted, users, i, m - 1, c);
      HitsNext(hit, m - 1);
    }
  }

  lemma {:induction false} RowCount(ev: Evaluator, sorted: seq<Rule>, users: seq<User>, i: nat, c: Conflict)
    requires i < |sorted|
    ensures Occurrences(PairReports(ev, sorted, users, i, i), c) == |Hits(RowOf(PairTest(ev, sorted, users, c), i), i)|
  {
    var hit := RowOf(PairTest(ev, sorted, users, c), i);
    forall j: nat | j < |sorted| ensures HitIs(ev, sorted, users, i, j, c, hit) {
    }
    RowCountFor(ev, sorted, users, i, i, c, hit);
  }

  function Total(ev: Evaluator, sorted: seq<Rule>, users: seq<User>, c: Conflict): int -> int {
    n => if 0 <= n <= |sorted| then Occurrences(Reports(ev, sorted, users, n), c) else 0
  }

  lemma {:induction false} ReportsAddRow(ev: Evaluator, sorted: seq<Rule>, users: seq<User>, c: Conflict, k: nat)
    requires k < |sorted|
    ensures AddsRow(Total(ev, sorted, users, c), OwnTest(sorted, c), PairTest(ev, sorted, users, c), k)
  {
    RowCount(ev, sorted, users, k, c);
  }

  /** A conflict is reported once for each rule it is about by itself and once for each pair of rules it is about. */
  lemma {:induction false} ReportCount(ev: Evaluator, sorted: seq<Rule>, users: seq<User>, c: Conflict)
    ensures Occurrences(Reports(ev, sorted, users, |sorted|), c)
         == |Hits(OwnTest(sorted, c), |sorted|)| + |PairHits(PairTest(ev, sorted, users, c), |sorted|)|
  {
    var total, own, pair := Total(ev, sorted, users, c), OwnTest(sorted, c), PairTest(ev, sorted, users, c);
    forall k: nat | k < |sorted| ensures AddsRow(total, own, pair, k) {
      ReportsAddRow(ev, sorted, users, c, k);
    }
    CountsPairs(total, own, pair, |sorted|);
  }

  // ---------------------------------------------------------------------------
  // Rules reported once
  // ---------------------------------------------------------------------------

  /** The positions of the 0% rules with an identifier. */
  function DeadWith(sorted: seq<Rule>, id: string): set<int> {
    set i | 0 <= i < |sorted| && sorted[i].percentage == 0.0 && sorted[i].id == id
  }

  lemma {:induction false} PairTestMeans(ev: Evaluator, sorted: seq<Rule>, users: seq<User>, c: Conflict, i: int,
                                         j: int)
    requires PairTest(ev, sorted, users, c)(i, j)
    ensures 0 <= i < |sorted| && 0 <= j < |sorted| && c.ruleIds == [sorted[i].id, sorted[j].id] && c.kind != DeadRule
  {
    PairReportShort(ev, sorted[i], sorted[j], users);
  }

  lemma {:induction false} NoSinglePairs(ev: Evaluator, sorted: seq<Rule>, users: seq<User>, c: Conflict)
    requires |c.ruleIds| == 1
    ensures |PairHits(PairTest(ev, sorted, users, c), |sorted|)| == 0
  {
    var pair := PairTest(ev, sorted, users, c);
    forall i, j | 0 <= i < |sorted| && 0 <= j < i ensures !pair(i, j) {
      if pair(i, j) {
        PairTestMeans(ev, sorted, users, c, i, j);
      }
    }
    NoPairs(pair, |sorted|);
  }

  lemma {:induction false} DeadPositions(sorted: seq<Rule>, id: string)
    ensures Hits(OwnTest(sorted, Conflict(DeadRule, [id])), |sorted|) == DeadWith(sorted, id)
  {
  }

  /** A rule is reported dead exactly as often as there are 0% rules with its identifier. */
  lemma {:induction false} DeadCount(ev: Evaluator, sorted: seq<Rule>, users: seq<User>, id: string)
    ensures Occurrences(Reports(ev, sorted, users, |sorted|), Conflict(DeadRule, [id])) == |DeadWith(sorted, id)|
  {
    ReportCount(ev, sorted, users, Conflict(DeadRule, [id]));
    NoSinglePairs(ev, sorted, users, Conflict(DeadRule, [id]));
    DeadPositions(sorted, id);
  }

  lemma {:induction false} NamedInPair(ev: Evaluator, sorted: seq<Rule>, users: seq<User>, k: nat, d: Conflict)
    requires k < |sorted| && InPairs(ev, sorted, users, k, k, d)
    ensures forall id :: id in d.ruleIds ==>
              exists i :: 0 <= i < |sorted| && sorted[i].id == id && sorted[i].percentage != 0.0
  {
    var j :| 0 <= j < k && d in PairReport(ev, sorted[k], sorted[j], users);
    PairReportShort(ev, sorted[k], sorted[j], users);
  }

  /** Only its own report can name a 0% rule. */
  lemma {:induction false} NamesDead(ev: Evaluator, sorted: seq<Rule>, users: seq<User>, i: nat, d: Conflict)
    requires DistinctIds(sorted) && i < |sorted| && sorted[i].percentage == 0.0
    requires d in Reports(ev, sorted, users, |sorted|) && sorted[i].id in d.ruleIds
    ensures d == Conflict(DeadRule, [sorted[i].id])
  {
    ReportedExactly(ev, sorted, users, d);
    var k :| 0 <= k < |sorted| && InRow(ev, sorted, users, k, d);
    NotNamedInPairs(ev, sorted, users, i, k, d);
  }

  lemma {:induction false} NotNamedInPairs(ev: Evaluator, sorted: seq<Rule>, users: seq<User>, i: nat, k: nat,
                                           d: Conflict)
    requires DistinctIds(sorted) && i < |sorted| && sorted[i].percentage == 0.0
    requires sorted[i].id in d.ruleIds && k < |sorted|
    ensures !InPairs(ev, sorted, users, k, k, d)
  {
    if InPairs(ev, sorted, users, k, k, d) {
      NamedInPair(ev, sorted, users, k, d);
    }
  }

  /** With distinct identifiers a 0% rule is reported dead exactly once, and no other report names it. */
  lemma {:induction false} DeadReportedOnce(ev: Evaluator, sorted: seq<Rule>, users: seq<User>, i: nat)
    requires DistinctIds(sorted) && i < |sorted| && sorted[i].percentage == 0.0
    ensures Occurrences(Reports(ev, sorted, users, |sorted|), Conflict(DeadRule, [sorted[i].id])) == 1
    ensures forall d :: d in Reports(ev, sorted, users, |sorted|) && sorted[i].id in d.ruleIds ==>
                          d == Conflict(DeadRule, [sorted[i].id])
  {
    DeadCount(ev, sorted, users, sorted[i].id);
    assert DeadWith(sorted, sorted[i].id) == {i as int};
    forall d | d in Reports(ev, sorted, users, |sorted|) && sorted[i].id in d.ruleIds
      ensures d == Conflict(DeadRule, [sorted[i].id])
    {
      NamesDead(ev, sorted, users, i, d);
    }
  }

  lemma {:induction false} NoOwnOfPair(sorted: seq<Rule>, c: Conflict)
    requires |c.ruleIds| == 2
    ensures |Hits(OwnTest(sorted, c), |sorted|)| == 0
  {
    assert Hits(OwnTest(sorted, c), |sorted|) == {};
  }

  /** With distinct identifiers each pair of rules has the report it calls for exactly once, and no other. */
  lemma {:induction false} PairReportedOnce(ev: Evaluator, sorted: seq<Rule>, users: seq<User>, i: nat, j: nat,
                                            c: Conflict)
    requires DistinctIds(sorted) && j < i < |sorted| && c.ruleIds == [sorted[i].id, sorted[j].id]
    ensures Occurrences(Reports(ev, sorted, users, |sorted|), c)
         == if c in PairReport(ev, sorted[i], sorted[j], users) then 1 else 0
  {
    var pair := PairTest(ev, sorted, users, c);
    forall k, l | 0 <= k < |sorted| && 0 <= l < k && pair(k, l) ensures k == i && l == j {
      PairTestMeans(ev, sorted, users, c, k, l);
      assert c.ruleIds[0] == sorted[k].id && c.ruleIds[1] == sorted[l].id;
    }
    OnlyPair(pair, |sorted|, i, j);
    NoOwnOfPair(sorted, c);
    ReportCount(ev, sorted, users, c);
  }

  // ---------------------------------------------------------------------------
  // Impossible rules
  // ---------------------------------------------------------------------------

  /** Above 0%, but one of the conditions, whichever, has no values and does not ask for mere presence. */
  predicate Impossible(rule: Rule) {
    rule.percentage != 0.0 && exists c :: c in rule.conditions && c.values == [] && c.operator != "exists"
  }

  /** The positions of such rules with an identifier. */
  function ImpossibleWith(sorted: seq<Rule>, id: string): set<int> {
    set i | 0 <= i < |sorted| && sorted[i].id == id && Impossible(sorted[i])
  }

  lemma {:induction false} OwnImpossible(rule: Rule, c: Conflict)
    requires c.kind == ImpossibleRule
    ensures c in OwnReport(rule) <==> c.ruleIds == [rule.id] && Impossible(rule)
  {
    if HasValueless(rule) {
      var i :| 0 <= i < |rule.conditions| && Valueless(rule.conditions[i]);
      assert rule.conditions[i] in rule.conditions;
    }
    if Impossible(rule) {
      var d :| d in rule.conditions && d.values == [] && d.operator != "exists";
      assert Valueless(d);
    }
  }

  lemma {:induction false} ImpossiblePositions(sorted: seq<Rule>, id: string)
    ensures Hits(OwnTest(sorted, Conflict(ImpossibleRule, [id])), |sorted|) == ImpossibleWith(sorted, id)
  {
    forall i | 0 <= i < |sorted|
      ensures Conflict(ImpossibleRule, [id]) in OwnReport(sorted[i]) <==> sorted[i].id == id && Impossible(sorted[i])
    {
      OwnImpossible(sorted[i], Conflict(ImpossibleRule, [id]));
    }
  }

  /** A rule is reported impossible as often as there are rules above 0% with its identifier and such a condition. */
  lemma {:induction false} ImpossibleCount(ev: Evaluator, sorted: seq<Rule>, users: seq<User>, id: string)
    ensures Occurrences(Reports(ev, sorted, users, |sorted|), Conflict(ImpossibleRule, [id]))
         == |ImpossibleWith(sorted, id)|
  {
    var c := Conflict(ImpossibleRule, [id]);
    ReportCount(ev, sorted, users, c);
    NoSinglePairs(ev, sorted, users, c);
    ImpossiblePositions(sorted, id);
  }

  /** With distinct identifiers a rule is reported impossible once or not at all, according to its conditions. */
  lemma {:induction false} ImpossibleReportedOnce(ev: Evaluator, sorted: seq<Rule>, users: seq<User>, i: nat)
    requires DistinctIds(sorted) && i < |sorted|
    ensures Occurrences(Reports(ev, sorted, users, |sorted|), Conflict(ImpossibleRule, [sorted[i].id]))
         == if Impossible(sorted[i]) then 1 else 0
  {
    ImpossibleCount(ev, sorted, users, sorted[i].id);
    assert ImpossibleWith(sorted, sorted[i].id) == if Impossible(sorted[i]) then {i as int} else {};
  }

  /** What names a single rule is one of these two reports, and about a rule that calls for it. */
  lemma {:induction false} SingleReports(ev: Evaluator, sorted: seq<Rule>, users: seq<User>, d: Conflict)
    requires d in Reports(ev, sorted, users, |sorted|)
    ensures |d.ruleIds| == 1 || |d.ruleIds| == 2
    ensures |d.ruleIds| == 1 ==>
              || (d.kind == DeadRule && DeadWith(sorted, d.ruleIds[0]) != {})
              || (d.kind == ImpossibleRule && ImpossibleWith(sorted, d.ruleIds[0]) != {})
  {
    ReportedExactly(ev, sorted, users, d);
    var i :| 0 <= i < |sorted| && InRow(ev, sorted, users, i, d);
    if d in OwnReport(sorted[i]) {
      if d.kind == ImpossibleRule {
        OwnImpossible(sorted[i], d);
      }
      assert i in DeadWith(sorted, d.ruleIds[0]) || i in ImpossibleWith(sorted, d.ruleIds[0]);
    } else {
      var j :| 0 <= j < i && d in PairReport(ev, sorted[i], sorted[j], users);
      PairReportShort(ev, sorted[i], sorted[j], users);
    }
  }

  // ---------------------------------------------------------------------------
  // The order of the reports
  // ---------------------------------------------------------------------------

  /** Where a report comes from: rule `row` by itself if `col` is -1, else with the rule at `col`. */
  datatype Place = Place(row: int, col: int)

  predicate Precedes(a: Place, b: Place) {
    a.row < b.row || (a.row == b.row && a.col < b.col)
  }

  ghost predicate ComesFrom(ev: Evaluator, sorted: seq<Rule>, users: seq<User>, c: Conflict, p: Place) {
    && -1 <= p.col < p.row && 0 <= p.row < |sorted|
    && if p.col == -1 then c in OwnReport(sorted[p.row])
       else c in PairReport(ev, sorted[p.row], sorted[p.col], users)
  }

  /** The reports come from the given places, each later than the one before. */
  ghost predicate Placed(ev: Evaluator, sorted: seq<Rule>, users: seq<User>, cs: seq<Conflict>, places: seq<Place>) {
    && |places| == |cs|
    && (forall k :: 0 <= k < |cs| ==> ComesFrom(ev, sorted, users, cs[k], places[k]))
    && forall k, l :: 0 <= k < l < |cs| ==> Precedes(places[k], places[l])
  }

  /** All places precede the given one. */
  ghost predicate AllBefore(places: seq<Place>, p: Place) {
    forall k :: 0 <= k < |places| ==> Precedes(places[k], p)
  }

  lemma {:induction false} PlaceMore(ev: Evaluator, sorted: seq<Rule>, users: seq<User>, cs: seq<Conflict>,
                                     places: seq<Place>, more: seq<Conflict>, p: Place)
    returns (places': seq<Place>)
    requires Placed(ev, sorted, users, cs, places) && AllBefore(places, p)
    requires |more| <= 1 && forall c :: c in more ==> ComesFrom(ev, sorted, users, c, p)
    ensures Placed(ev, sorted, users, cs + more, places')
    ensures AllBefore(places', Place(p.row, p.col + 1))
  {
    places' := if more == [] then places else places + [p];
    if more == [] {
      assert cs + more == cs;
    } else {
      assert cs + more == cs + [more[0]];
    }
  }

  lemma {:induction false} PlaceRow(ev: Evaluator, sorted: seq<Rule>, users: seq<User>, cs: seq<Conflict>,
                                    places: seq<Place>, i: nat, j: nat)
    returns (places': seq<Place>)
    requires j <= i < |sorted|
    requires Placed(ev, sorted, users, cs, places) && AllBefore(places, Place(i, 0))
    ensures Placed(ev, sorted, users, cs + PairReports(ev, sorted, users, i, j), places')
    ensures AllBefore(places', Place(i, j))
  {
    if j == 0 {
      places' := places;
      assert cs + [] == cs;
    } else {
      var higher := sorted[j - 1];
      places' := PlaceRow(ev, sorted, users, cs, places, i, j - 1);
      PairReportShort(ev, sorted[i], higher, users);
      var before, more := PairReports(ev, sorted, users, i, j - 1), PairReport(ev, sorted[i], higher, users);
      places' := PlaceMore(ev, sorted, users, cs + before, places', more, Place(i, j - 1));
      assert cs + (before + more) == cs + before + more;
    }
  }

  /**
   The reports come rule by rule in order of priority; for each rule first what is said
   of it alone, then what is said of it and each rule before it, in order.
   */
  lemma {:induction false} ReportsInOrder(ev: Evaluator, sorted: seq<Rule>, users: seq<User>, n: nat)
    returns (places: seq<Place>)
    requires n <= |sorted|
    ensures Placed(ev, sorted, users, Reports(ev, sorted, users, n), places)
    ensures AllBefore(places, Place(n, -1))
  {
    if n == 0 {
      places := [];
    } else {
      var i := n - 1;
      places := ReportsInOrder(ev, sorted, users, i);
      var before, own := Reports(ev, sorted, users, i), OwnReport(sorted[i]);
      places := PlaceMore(ev, sorted, users, before, places, own, Place(i, -1));
      places := PlaceRow(ev, sorted, users, before + own, places, i, i);
    }
  }
}
