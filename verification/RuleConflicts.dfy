/** The conflict detector: what it reports, and what following its advice does. */
module RuleConflicts {
  import opened TargetingRules

  datatype Kind =
    | DeadRule
    | ImpossibleRule
    | ShadowedRule
    | Overlap(both: nat, lower: nat)

  /** The identifiers are those of the rule and, for pairwise conflicts, of the higher-priority one. */
  datatype Conflict = Conflict(kind: Kind, ruleIds: seq<string>)

  // ---------------------------------------------------------------------------
  // Sorting by priority, keeping the order of equals
  // ---------------------------------------------------------------------------

  function Insert(r: Rule, s: seq<Rule>): seq<Rule> {
    if s == [] || r.priority < s[0].priority then [r] + s
    else [s[0]] + Insert(r, s[1..])
  }

  function SortRules(rules: seq<Rule>): seq<Rule> {
    if rules == [] then [] else Insert(rules[|rules| - 1], SortRules(rules[..|rules| - 1]))
  }

  ghost predicate NoneBelow(s: seq<Rule>, priority: int) {
    forall i :: 0 <= i < |s| ==> priority <= s[i].priority
  }

  ghost predicate ByPriority(s: seq<Rule>) {
    s == [] || (NoneBelow(s[1..], s[0].priority) && ByPriority(s[1..]))
  }

  lemma {:induction false} InsertOrders(r: Rule, s: seq<Rule>)
    requires ByPriority(s)
    ensures ByPriority(Insert(r, s))
    ensures forall p :: NoneBelow(s, p) && p <= r.priority ==> NoneBelow(Insert(r, s), p)
  {
    if s == [] || r.priority < s[0].priority {
      assert ([r] + s)[1..] == s;
      if s != [] {
        assert forall i :: 0 < i < |s| ==> s[i] == s[1..][i - 1];
      }
    } else {
      InsertOrders(r, s[1..]);
      assert ([s[0]] + Insert(r, s[1..]))[1..] == Insert(r, s[1..]);
      forall p | NoneBelow(s, p) && p <= r.priority ensures NoneBelow(Insert(r, s), p) {
        assert NoneBelow(s[1..], p);
        assert NoneBelow(Insert(r, s[1..]), p);
      }
    }
  }

  lemma {:induction false} InsertKeepsAll(r: Rule, s: seq<Rule>)
    ensures multiset(Insert(r, s)) == multiset(s) + multiset{r}
  {
    if s != [] && r.priority >= s[0].priority {
      InsertKeepsAll(r, s[1..]);
      assert s == [s[0]] + s[1..];
    }
  }

  lemma {:induction false} SortKeepsAll(rules: seq<Rule>)
    ensures multiset(SortRules(rules)) == multiset(rules)
  {
    if rules != [] {
      var init, last := rules[..|rules| - 1], rules[|rules| - 1];
      SortKeepsAll(init);
      InsertKeepsAll(last, SortRules(init));
      assert rules == init + [last];
    }
  }

  lemma {:induction false} SortIsOrdered(rules: seq<Rule>)
    ensures ByPriority(SortRules(rules))
  {
    if rules != [] {
      SortIsOrdered(rules[..|rules| - 1]);
      InsertOrders(rules[|rules| - 1], SortRules(rules[..|rules| - 1]));
    }
  }

  /** The rules of one priority, in order. */
  function AtPriority(s: seq<Rule>, p: int): seq<Rule> {
    if s == [] then [] else (if s[0].priority == p then [s[0]] else []) + AtPriority(s[1..], p)
  }

  lemma {:induction false} NoneAtPriority(s: seq<Rule>, p: int)
    requires NoneBelow(s, p + 1)
    ensures AtPriority(s, p) == []
  {
    if s != [] {
      assert forall i :: 0 <= i < |s| - 1 ==> s[1..][i] == s[i + 1];
      NoneAtPriority(s[1..], p);
    }
  }

  lemma {:induction false} InsertAtPriority(r: Rule, s: seq<Rule>, p: int)
    requires ByPriority(s)
    ensures AtPriority(Insert(r, s), p) == AtPriority(s, p) + if r.priority == p then [r] else []
  {
    if s == [] || r.priority < s[0].priority {
      assert ([r] + s)[1..] == s;
      if s != [] && r.priority == p {
        assert NoneBelow(s, p + 1) by {
          assert forall i :: 0 < i < |s| ==> s[i] == s[1..][i - 1];
        }
        NoneAtPriority(s, p);
      }
    } else {
      InsertAtPriority(r, s[1..], p);
      assert ([s[0]] + Insert(r, s[1..]))[1..] == Insert(r, s[1..]);
    }
  }

  lemma {:induction false} AtPriorityAppend(s: seq<Rule>, r: Rule, p: int)
    ensures AtPriority(s + [r], p) == AtPriority(s, p) + if r.priority == p then [r] else []
  {
    var all := s + [r];
    if s == [] {
      assert all == [r] && all[1..] == [];
    } else {
      var rest, last := s[1..], if r.priority == p then [r] else [];
      assert all[0] == s[0] && all[1..] == rest + [r];
      AtPriorityAppend(rest, r, p);
      var head := if s[0].priority == p then [s[0]] else [];
      assert head + (AtPriority(rest, p) + last) == (head + AtPriority(rest, p)) + last;
    }
  }

  lemma {:induction false} SortIsStable(rules: seq<Rule>, p: int)
    ensures AtPriority(SortRules(rules), p) == AtPriority(rules, p)
  {
    if rules != [] {
      var init, last := rules[..|rules| - 1], rules[|rules| - 1];
      SortIsStable(init, p);
      SortIsOrdered(init);
      InsertAtPriority(last, SortRules(init), p);
      AtPriorityAppend(init, last, p);
      assert rules == init + [last];
    }
  }

  /** Sorting orders the rules, keeps exactly those there were, and equal ones in their order. */
  lemma {:induction false} SortOrders(rules: seq<Rule>)
    ensures ByPriority(SortRules(rules))
    ensures multiset(SortRules(rules)) == multiset(rules)
    ensures forall p :: AtPriority(SortRules(rules), p) == AtPriority(rules, p)
  {
    SortIsOrdered(rules);
    SortKeepsAll(rules);
    forall p ensures AtPriority(SortRules(rules), p) == AtPriority(rules, p) {
      SortIsStable(rules, p);
    }
  }

  ghost predicate DistinctIds(sorted: seq<Rule>) {
    forall i, j :: 0 <= i < |sorted| && 0 <= j < |sorted| && sorted[i].id == sorted[j].id ==> i == j
  }

  /** The rules that remain once those with the given identifiers are deleted. */
  function Keep(rules: seq<Rule>, gone: set<string>): seq<Rule> {
    if rules == [] then []
    else (if rules[0].id in gone then [] else [rules[0]]) + Keep(rules[1..], gone)
  }

  lemma {:induction false} KeepConcat(a: seq<Rule>, b: seq<Rule>, gone: set<string>)
    ensures Keep(a + b, gone) == Keep(a, gone) + Keep(b, gone)
  {
    if a == [] {
      assert a + b == b;
    } else {
      assert (a + b)[1..] == a[1..] + b;
      KeepConcat(a[1..], b, gone);
    }
  }

  lemma {:induction false} KeepNoneBelow(s: seq<Rule>, gone: set<string>, priority: int)
    requires NoneBelow(s, priority)
    ensures NoneBelow(Keep(s, gone), priority)
  {
    if s != [] {
      KeepNoneBelow(s[1..], gone, priority);
    }
  }

  lemma {:induction false} KeepInsert(r: Rule, s: seq<Rule>, gone: set<string>)
    requires ByPriority(s)
    ensures Keep(Insert(r, s), gone) == if r.id in gone then Keep(s, gone) else Insert(r, Keep(s, gone))
  {
    if s == [] || r.priority < s[0].priority {
      assert ([r] + s)[1..] == s;
      if s != [] {
        assert NoneBelow(s, s[0].priority) by {
          assert forall i :: 0 < i < |s| ==> s[i] == s[1..][i - 1];
        }
        KeepNoneBelow(s, gone, s[0].priority);
      }
    } else {
      KeepInsert(r, s[1..], gone);
      assert ([s[0]] + Insert(r, s[1..]))[1..] == Insert(r, s[1..]);
      if s[0].id !in gone {
        assert ([s[0]] + Keep(s[1..], gone))[1..] == Keep(s[1..], gone);
      } else {
        assert [] + Keep(s[1..], gone) == Keep(s[1..], gone);
      }
    }
  }

  lemma {:induction false} KeepAppend(s: seq<Rule>, r: Rule, gone: set<string>)
    ensures Keep(s + [r], gone) == if r.id in gone then Keep(s, gone) else Keep(s, gone) + [r]
  {
    KeepConcat(s, [r], gone);
    assert [r][1..] == [];
  }

  lemma {:induction false} SortAppend(s: seq<Rule>, r: Rule)
    ensures SortRules(s + [r]) == Insert(r, SortRules(s))
  {
    assert (s + [r])[..|s|] == s;
  }

  lemma {:induction false} SortKeepNext(s: seq<Rule>, r: Rule, gone: set<string>)
    requires SortRules(Keep(s, gone)) == Keep(SortRules(s), gone)
    ensures SortRules(Keep(s + [r], gone)) == Keep(SortRules(s + [r]), gone)
  {
    SortIsOrdered(s);
    SortAppend(s, r);
    KeepInsert(r, SortRules(s), gone);
    KeepAppend(s, r, gone);
    SortAppend(Keep(s, gone), r);
  }

  /** Deleting rules and sorting can be done in either order. */
  lemma {:induction false} SortKeep(rules: seq<Rule>, gone: set<string>)
    ensures SortRules(Keep(rules, gone)) == Keep(SortRules(rules), gone)
  {
    if rules != [] {
      var init, last := rules[..|rules| - 1], rules[|rules| - 1];
      assert init + [last] == rules;
      SortKeep(init, gone);
      SortKeepNext(init, last, gone);
    }
  }

  // ---------------------------------------------------------------------------
  // Reports
  // ---------------------------------------------------------------------------

  /** Whether a rule matches a user. */
  type Evaluator = (Rule, User) -> bool

  function RuleEvaluator(host: Host): Evaluator {
    (rule, user) => EvaluateRule(host, rule, user)
  }

  function MatchedUsers(ev: Evaluator, rule: Rule, users: seq<User>): seq<User> {
    if users == [] then []
    else MatchedUsers(ev, rule, users[..|users| - 1])
         + if ev(rule, users[|users| - 1]) then [users[|users| - 1]] else []
  }

  predicate AllMatch(ev: Evaluator, rule: Rule, users: seq<User>) {
    forall i :: 0 <= i < |users| ==> ev(rule, users[i])
  }

  /** What is reported about one rule by itself. */
  function OwnReport(rule: Rule): seq<Conflict> {
    if rule.percentage == 0.0 then [Conflict(DeadRule, [rule.id])]
    else if HasValueless(rule) then [Conflict(ImpossibleRule, [rule.id])]
    else []
  }

  /** What is reported about a rule and a higher-priority one. */
  function PairReport(ev: Evaluator, rule: Rule, higher: Rule, users: seq<User>): seq<Conflict> {
    var lower := MatchedUsers(ev, rule, users);
    if rule.percentage == 0.0 || higher.percentage == 0.0 || lower == [] then []
    else if AllMatch(ev, higher, lower) then [Conflict(ShadowedRule, [rule.id, higher.id])]
    else
      var both := |MatchedUsers(ev, higher, lower)|;
      if both > 0 then [Conflict(Overlap(both, |lower|), [rule.id, higher.id])] else []
  }

  /** The reports of one rule against the first `j` rules. */
  function PairReports(ev: Evaluator, sorted: seq<Rule>, users: seq<User>, i: nat, j: nat): seq<Conflict>
    requires i < |sorted| && j <= |sorted|
  {
    if j == 0 then []
    else PairReports(ev, sorted, users, i, j - 1) + PairReport(ev, sorted[i], sorted[j - 1], users)
  }

  /** All reports about the first `n` rules. */
  function Reports(ev: Evaluator, sorted: seq<Rule>, users: seq<User>, n: nat): seq<Conflict>
    requires n <= |sorted|
  {
    if n == 0 then []
    else Reports(ev, sorted, users, n - 1) + OwnReport(sorted[n - 1])
         + PairReports(ev, sorted, users, n - 1, n - 1)
  }

  /** A dead rule takes part in no pairwise report. */
  lemma {:induction false} DeadHasNoPairs(ev: Evaluator, sorted: seq<Rule>, users: seq<User>, i: nat, j: nat)
    requires i < |sorted| && j <= |sorted| && sorted[i].percentage == 0.0
    ensures PairReports(ev, sorted, users, i, j) == []
  {
    if j > 0 {
      DeadHasNoPairs(ev, sorted, users, i, j - 1);
    }
  }

  /** Checks rule `i` against the rules sorted before it. */
  method CheckAgainstHigher(ev: Evaluator, sorted: seq<Rule>, users: seq<User>, i: nat, before: seq<Conflict>)
    returns (conflicts: seq<Conflict>)
    requires i < |sorted| && sorted[i].percentage != 0.0
    ensures conflicts == before + PairReports(ev, sorted, users, i, i)
  {
    conflicts := before;
    var rule := sorted[i];
    for j := 0 to i
      invariant conflicts == before + PairReports(ev, sorted, users, i, j)
    {
      var higher := sorted[j];
      ghost var found, report := conflicts, PairReport(ev, rule, higher, users);
      assert before + PairReports(ev, sorted, users, i, j + 1) == found + report;
      if higher.percentage == 0.0 {
        continue;
      }
      var matchedByLower := MatchedUsers(ev, rule, users);
      if |matchedByLower| == 0 {
        continue;
      }
      if AllMatch(ev, higher, matchedByLower) {
        conflicts := conflicts + [Conflict(ShadowedRule, [rule.id, higher.id])];
      } else {
        var overlapCount := |MatchedUsers(ev, higher, matchedByLower)|;
        if overlapCount > 0 {
          conflicts := conflicts + [Conflict(Overlap(overlapCount, |matchedByLower|), [rule.id, higher.id])];
        }
      }
      assert conflicts == found + report;
    }
  }

  method Detect(ev: Evaluator, rules: seq<Rule>, users: seq<User>) returns (conflicts: seq<Conflict>)
    ensures conflicts == Reports(ev, SortRules(rules), users, |SortRules(rules)|)
  {
    conflicts := [];
    var sorted := SortRules(rules);
    for i := 0 to |sorted|
      invariant conflicts == Reports(ev, sorted, users, i)
    {
      var rule := sorted[i];
      ghost var found, own := conflicts, OwnReport(rule);
      assert Reports(ev, sorted, users, i + 1) == found + own + PairReports(ev, sorted, users, i, i);
      if rule.percentage == 0.0 {
        conflicts := conflicts + [Conflict(DeadRule, [rule.id])];
        DeadHasNoPairs(ev, sorted, users, i, i);
        continue;
      }
      if |rule.conditions| > 0 && HasValueless(rule) {
        conflicts := conflicts + [Conflict(ImpossibleRule, [rule.id])];
      }
      assert conflicts == found + own;
      conflicts := CheckAgainstHigher(ev, sorted, users, i, conflicts);
    }
  }

  method DetectConflicts(host: Host, rules: seq<Rule>, users: seq<User>) returns (conflicts: seq<Conflict>)
    ensures var sorted := SortRules(rules); conflicts == Reports(RuleEvaluator(host), sorted, users, |sorted|)
  {
    conflicts := Detect(RuleEvaluator(host), rules, users);
  }

  // ---------------------------------------------------------------------------
  // What the reports mean
  // ---------------------------------------------------------------------------

  /** The positions of the sample users a rule matches. */
  function Matched(ev: Evaluator, rule: Rule, users: seq<User>): set<int> {
    set k | 0 <= k < |users| && ev(rule, users[k])
  }

  lemma {:induction false} MatchedUsersCount(ev: Evaluator, rule: Rule, users: seq<User>)
    ensures |MatchedUsers(ev, rule, users)| == |Matched(ev, rule, users)|
  {
    if users != [] {
      var n := |users| - 1;
      MatchedUsersCount(ev, rule, users[..n]);
      assert Matched(ev, rule, users)
          == Matched(ev, rule, users[..n]) + if ev(rule, users[n]) then {n} else {};
    }
  }

  lemma {:induction false} MatchedUsersAre(ev: Evaluator, rule: Rule, users: seq<User>)
    ensures forall u :: u in MatchedUsers(ev, rule, users) <==> u in users && ev(rule, u)
  {
    if users != [] {
      var n := |users| - 1;
      MatchedUsersAre(ev, rule, users[..n]);
      assert users == users[..n] + [users[n]];
    }
  }

  lemma {:induction false} MatchedAppend(ev: Evaluator, rule: Rule, users: seq<User>, u: User)
    ensures Matched(ev, rule, users + [u]) == Matched(ev, rule, users) + if ev(rule, u) then {|users|} else {}
  {
    var users' := users + [u];
    forall k ensures k in Matched(ev, rule, users')
                 <==> k in Matched(ev, rule, users) || (k == |users| && ev(rule, u))
    {
      if 0 <= k < |users| {
        assert users'[k] == users[k];
      }
    }
  }

  lemma {:induction false} MatchedUsersAppend(ev: Evaluator, rule: Rule, users: seq<User>, u: User)
    ensures MatchedUsers(ev, rule, users + [u])
         == if ev(rule, u) then MatchedUsers(ev, rule, users) + [u] else MatchedUsers(ev, rule, users)
  {
    assert (users + [u])[..|users|] == users;
  }

  lemma {:induction false} BothAppend(ev: Evaluator, rule: Rule, higher: Rule, users: seq<User>, u: User)
    ensures |Matched(ev, rule, users + [u]) * Matched(ev, higher, users + [u])|
         == |Matched(ev, rule, users) * Matched(ev, higher, users)| + if ev(rule, u) && ev(higher, u) then 1 else 0
  {
    MatchedAppend(ev, rule, users, u);
    MatchedAppend(ev, higher, users, u);
    CommonGrows(Matched(ev, rule, users), Matched(ev, higher, users), |users|, ev(rule, u), ev(higher, u));
  }

  lemma {:induction false} CommonGrows(a: set<int>, b: set<int>, n: int, p: bool, q: bool)
    requires n !in a && n !in b
    ensures |(a + if p then {n} else {}) * (b + if q then {n} else {})| == |a * b| + if p && q then 1 else 0
  {
    assert (a + if p then {n} else {}) * (b + if q then {n} else {}) == a * b + if p && q then {n} else {};
  }

  lemma {:induction false} BothCount(ev: Evaluator, rule: Rule, higher: Rule, users: seq<User>)
    ensures |MatchedUsers(ev, higher, MatchedUsers(ev, rule, users))|
         == |Matched(ev, rule, users) * Matched(ev, higher, users)|
  {
    if users == [] {
      assert Matched(ev, rule, users) * Matched(ev, higher, users) == {};
    } else {
      var init, u := users[..|users| - 1], users[|users| - 1];
      assert users == init + [u];
      BothCount(ev, rule, higher, init);
      BothAppend(ev, rule, higher, init, u);
      MatchedUsersAppend(ev, rule, init, u);
      MatchedUsersAppend(ev, higher, MatchedUsers(ev, rule, init), u);
    }
  }

  /** The lower rule matches some sample user and none that the higher rule does not. */
  predicate Shadows(ev: Evaluator, higher: Rule, rule: Rule, users: seq<User>) {
    && rule.percentage != 0.0 && higher.percentage != 0.0
    && Matched(ev, rule, users) != {}
    && Matched(ev, rule, users) <= Matched(ev, higher, users)
  }

  /**
   A pair of live rules is reported as shadowed exactly when the sample users of the
   lower rule are some and all among the higher rule's; as overlapping, with the true
   counts, exactly when they share some but not all; and otherwise not at all.
   */
  lemma {:induction false} PairReportExact(ev: Evaluator, rule: Rule, higher: Rule, users: seq<User>)
    requires rule.percentage != 0.0 && higher.percentage != 0.0
    ensures var lower, both := Matched(ev, rule, users), Matched(ev, rule, users) * Matched(ev, higher, users);
            PairReport(ev, rule, higher, users) ==
              if Shadows(ev, higher, rule, users) then [Conflict(ShadowedRule, [rule.id, higher.id])]
              else if both != {} then [Conflict(Overlap(|both|, |lower|), [rule.id, higher.id])]
              else []
  {
    var lower, both := Matched(ev, rule, users), Matched(ev, rule, users) * Matched(ev, higher, users);
    var l := MatchedUsers(ev, rule, users);
    MatchedUsersCount(ev, rule, users);
    BothCount(ev, rule, higher, users);
    AllMatchIsSubset(ev, rule, higher, users);
    assert l == [] <==> lower == {};
    assert |both| == 0 <==> both == {};
  }

  lemma {:induction false} AllMatchIsSubset(ev: Evaluator, rule: Rule, higher: Rule, users: seq<User>)
    ensures AllMatch(ev, higher, MatchedUsers(ev, rule, users))
            <==> Matched(ev, rule, users) <= Matched(ev, higher, users)
  {
    var l := MatchedUsers(ev, rule, users);
    MatchedUsersAre(ev, rule, users);
    if AllMatch(ev, higher, l) {
      forall k | k in Matched(ev, rule, users) ensures k in Matched(ev, higher, users) {
        assert users[k] in l;
      }
    }
    if Matched(ev, rule, users) <= Matched(ev, higher, users) {
      forall i | 0 <= i < |l| ensures ev(higher, l[i]) {
        assert l[i] in l;
        var k :| 0 <= k < |users| && users[k] == l[i];
        assert k in Matched(ev, rule, users);
      }
    }
  }

  ghost predicate InRow(ev: Evaluator, sorted: seq<Rule>, users: seq<User>, i: nat, c: Conflict)
    requires i < |sorted|
  {
    c in OwnReport(sorted[i]) || InPairs(ev, sorted, users, i, i, c)
  }

  lemma {:induction false} ReportsNext(ev: Evaluator, sorted: seq<Rule>, users: seq<User>, n: nat, c: Conflict)
    requires n < |sorted|
    ensures c in Reports(ev, sorted, users, n + 1)
            <==> c in Reports(ev, sorted, users, n) || InRow(ev, sorted, users, n, c)
  {
    PairReportedExactly(ev, sorted, users, n, n, c);
    var a, b, d := Reports(ev, sorted, users, n), OwnReport(sorted[n]), PairReports(ev, sorted, users, n, n);
    assert Reports(ev, sorted, users, n + 1) == a + b + d;
    assert c in a + b + d <==> c in a || c in b || c in d;
  }

  /** What holds up to `n`, when each position adds a case of its own. */
  lemma {:induction false} Accumulates(upTo: int -> bool, own: int -> bool, n: nat)
    requires !upTo(0) && forall k :: 0 <= k < n ==> (upTo(k + 1) <==> upTo(k) || own(k))
    ensures upTo(n) <==> exists i :: 0 <= i < n && own(i)
  {
    if n > 0 {
      Accumulates(upTo, own, n - 1);
      assert upTo(n - 1 + 1) <==> upTo(n - 1) || own(n - 1);
    }
  }

  /** A conflict is reported exactly when it is some rule's own or that of a rule and one sorted before it. */
  lemma {:induction false} ReportedExactly(ev: Evaluator, sorted: seq<Rule>, users: seq<User>, c: Conflict)
    ensures c in Reports(ev, sorted, users, |sorted|)
            <==> exists i :: 0 <= i < |sorted| && InRow(ev, sorted, users, i, c)
  {
    var upTo := k => 0 <= k <= |sorted| && c in Reports(ev, sorted, users, k);
    var own := k => 0 <= k < |sorted| && InRow(ev, sorted, users, k, c);
    forall k | 0 <= k < |sorted| ensures upTo(k + 1) <==> upTo(k) || own(k) {
      ReportsNext(ev, sorted, users, k, c);
    }
    Accumulates(upTo, own, |sorted|);
    assert forall i :: 0 <= i < |sorted| ==> own(i) == InRow(ev, sorted, users, i, c);
  }

  ghost predicate InPairs(ev: Evaluator, sorted: seq<Rule>, users: seq<User>, i: nat, m: nat, c: Conflict)
    requires i < |sorted| && m <= |sorted|
  {
    exists j :: 0 <= j < m && c in PairReport(ev, sorted[i], sorted[j], users)
  }

  lemma {:induction false} PairReportedExactly(ev: Evaluator, sorted: seq<Rule>, users: seq<User>, i: nat, m: nat,
                                               c: Conflict)
    requires i < |sorted| && m <= |sorted|
    ensures c in PairReports(ev, sorted, users, i, m) <==> InPairs(ev, sorted, users, i, m, c)
  {
    if m > 0 {
      PairReportedExactly(ev, sorted, users, i, m - 1, c);
    }
  }
}
