/** What deleting the rules reported as shadowed does to the outcome for the sample users. */
module ConflictAdvice {
  import opened Common
  import opened TargetingRules
  import opened RuleConflicts

  /** The first rule in order that matches. */
  function FirstMatch(ev: Evaluator, sorted: seq<Rule>, u: User): Option<Rule> {
    if sorted == [] then None
    else if ev(sorted[0], u) then Some(sorted[0])
    else FirstMatch(ev, sorted[1..], u)
  }

  /** Rule `i` is reported as shadowed by some rule before it. */
  ghost predicate ShadowedAt(ev: Evaluator, sorted: seq<Rule>, users: seq<User>, i: nat)
    requires i < |sorted|
  {
    exists j :: 0 <= j < i && Shadows(ev, sorted[j], sorted[i], users)
  }

  /** The identifiers of the rules a list of conflicts calls shadowed. */
  function ShadowedIds(conflicts: seq<Conflict>): set<string> {
    set c | c in conflicts && c.kind == ShadowedRule && |c.ruleIds| > 0 :: c.ruleIds[0]
  }

  /** No rule that stays shares its identifier with a shadowed one. */
  ghost predicate NoClash(ev: Evaluator, sorted: seq<Rule>, users: seq<User>) {
    forall i, j :: 0 <= i < |sorted| && 0 <= j < |sorted| && sorted[i].id == sorted[j].id ==>
      (ShadowedAt(ev, sorted, users, i) <==> ShadowedAt(ev, sorted, users, j))
  }

  lemma {:induction false} ShadowRow(ev: Evaluator, sorted: seq<Rule>, users: seq<User>, i: nat, c: Conflict)
    requires i < |sorted| && InRow(ev, sorted, users, i, c) && c.kind == ShadowedRule
    ensures ShadowedAt(ev, sorted, users, i) && |c.ruleIds| > 0 && c.ruleIds[0] == sorted[i].id
  {
    var j :| 0 <= j < i && c in PairReport(ev, sorted[i], sorted[j], users);
    PairReportExact(ev, sorted[i], sorted[j], users);
  }

  lemma {:induction false} ReportNamesShadowed(ev: Evaluator, sorted: seq<Rule>, users: seq<User>, c: Conflict)
    returns (i: nat)
    requires c in Reports(ev, sorted, users, |sorted|) && c.kind == ShadowedRule
    ensures i < |sorted| && ShadowedAt(ev, sorted, users, i)
    ensures |c.ruleIds| > 0 && c.ruleIds[0] == sorted[i].id
  {
    ReportedExactly(ev, sorted, users, c);
    i :| 0 <= i < |sorted| && InRow(ev, sorted, users, i, c);
    ShadowRow(ev, sorted, users, i, c);
  }

  lemma {:induction false} ShadowedIsNamed(ev: Evaluator, sorted: seq<Rule>, users: seq<User>, i: nat)
    returns (c: Conflict)
    requires i < |sorted| && ShadowedAt(ev, sorted, users, i)
    ensures c in Reports(ev, sorted, users, |sorted|) && c.kind == ShadowedRule
    ensures |c.ruleIds| > 0 && c.ruleIds[0] == sorted[i].id
  {
    var j :| 0 <= j < i && Shadows(ev, sorted[j], sorted[i], users);
    c := Conflict(ShadowedRule, [sorted[i].id, sorted[j].id]);
    PairReportExact(ev, sorted[i], sorted[j], users);
    assert InRow(ev, sorted, users, i, c) by {
      assert InPairs(ev, sorted, users, i, i, c);
    }
    ReportedExactly(ev, sorted, users, c);
  }

  /** The reported identifiers are those of the shadowed rules. */
  lemma {:induction false} ShadowedIdsAre(ev: Evaluator, sorted: seq<Rule>, users: seq<User>, id: string)
    ensures id in ShadowedIds(Reports(ev, sorted, users, |sorted|)) <==>
            exists i :: 0 <= i < |sorted| && ShadowedAt(ev, sorted, users, i) && sorted[i].id == id
  {
    var reports := Reports(ev, sorted, users, |sorted|);
    if id in ShadowedIds(reports) {
      var c :| c in reports && c.kind == ShadowedRule && |c.ruleIds| > 0 && c.ruleIds[0] == id;
      var i := ReportNamesShadowed(ev, sorted, users, c);
    }
    if i :| 0 <= i < |sorted| && ShadowedAt(ev, sorted, users, i) && sorted[i].id == id {
      var c := ShadowedIsNamed(ev, sorted, users, i);
    }
  }

  // ---------------------------------------------------------------------------
  // Deleting rules
  // ---------------------------------------------------------------------------

  /** Deleting rules leaves a user's first match alone exactly when the first match itself stays. */
  lemma {:induction false} FirstMatchKeptIff(ev: Evaluator, sorted: seq<Rule>, gone: set<string>, u: User)
    ensures var first := FirstMatch(ev, sorted, u);
            FirstMatch(ev, Keep(sorted, gone), u) == first <==> (first.Some? ==> first.value.id !in gone)
  {
    if sorted != [] {
      var rest := Keep(sorted[1..], gone);
      FirstMatchKeptIff(ev, sorted[1..], gone, u);
      if sorted[0].id in gone {
        assert Keep(sorted, gone) == rest;
        FirstMatchOfKept(ev, sorted[1..], gone, u);
      } else {
        assert Keep(sorted, gone)[0] == sorted[0] && Keep(sorted, gone)[1..] == rest;
      }
    }
  }

  lemma {:induction false} FirstMatchOfKept(ev: Evaluator, sorted: seq<Rule>, gone: set<string>, u: User)
    ensures var first := FirstMatch(ev, Keep(sorted, gone), u); first.Some? ==> first.value.id !in gone
  {
    if sorted != [] {
      FirstMatchOfKept(ev, sorted[1..], gone, u);
      if sorted[0].id in gone {
        assert Keep(sorted, gone) == Keep(sorted[1..], gone);
      } else {
        assert Keep(sorted, gone)[0] == sorted[0] && Keep(sorted, gone)[1..] == Keep(sorted[1..], gone);
      }
    }
  }

  lemma {:induction false} FirstMatchAt(ev: Evaluator, sorted: seq<Rule>, u: User) returns (i: nat)
    requires FirstMatch(ev, sorted, u).Some?
    ensures i < |sorted| && sorted[i] == FirstMatch(ev, sorted, u).value && ev(sorted[i], u)
    ensures forall j :: 0 <= j < i ==> !ev(sorted[j], u)
  {
    if ev(sorted[0], u) {
      i := 0;
    } else {
      var k := FirstMatchAt(ev, sorted[1..], u);
      i := k + 1;
      assert forall j :: 0 < j < i ==> sorted[j] == sorted[1..][j - 1];
    }
  }

  lemma {:induction false} FirstMatchIs(pick: Evaluator, sorted: seq<Rule>, u: User, i: nat)
    requires i < |sorted| && pick(sorted[i], u) && forall h :: 0 <= h < i ==> !pick(sorted[h], u)
    ensures FirstMatch(pick, sorted, u) == Some(sorted[i])
  {
    if i > 0 {
      assert !pick(sorted[0], u);
      assert forall h :: 0 <= h < i ==> sorted[1..][h] == sorted[h + 1];
      FirstMatchIs(pick, sorted[1..], u, i - 1);
    }
  }

  /** A shadowed rule that matches a sample user has another match before it. */
  lemma {:induction false} MatchesBefore(ev: Evaluator, sorted: seq<Rule>, users: seq<User>, k: nat, i: nat)
    requires k < |users| && i < |sorted| && ShadowedAt(ev, sorted, users, i) && ev(sorted[i], users[k])
    ensures exists j :: 0 <= j < i && ev(sorted[j], users[k])
  {
    var j :| 0 <= j < i && Shadows(ev, sorted[j], sorted[i], users);
    assert k in Matched(ev, sorted[i], users);
  }

  lemma {:induction false} FirstMatchStays(ev: Evaluator, sorted: seq<Rule>, users: seq<User>, k: nat)
    requires k < |users| && NoClash(ev, sorted, users)
    ensures var first := FirstMatch(ev, sorted, users[k]);
            first.Some? ==> first.value.id !in ShadowedIds(Reports(ev, sorted, users, |sorted|))
  {
    if FirstMatch(ev, sorted, users[k]).Some? {
      var i := FirstMatchAt(ev, sorted, users[k]);
      if sorted[i].id in ShadowedIds(Reports(ev, sorted, users, |sorted|)) {
        ShadowedIdsAre(ev, sorted, users, sorted[i].id);
        assert ShadowedAt(ev, sorted, users, i);
        MatchesBefore(ev, sorted, users, k, i);
      }
    }
  }

  /** What is left of a rule list when every rule reported as shadowed is deleted by identifier. */
  function FollowAdvice(ev: Evaluator, rules: seq<Rule>, users: seq<User>): seq<Rule> {
    var sorted := SortRules(rules);
    Keep(rules, ShadowedIds(Reports(ev, sorted, users, |sorted|)))
  }

  /** Deleting all rules reported as shadowed, at once, leaves the first matching rule of every sample user. */
  lemma {:induction false} AdviceKeepsFirstMatch(ev: Evaluator, rules: seq<Rule>, users: seq<User>, k: nat)
    requires k < |users| && NoClash(ev, SortRules(rules), users)
    ensures FirstMatch(ev, SortRules(FollowAdvice(ev, rules, users)), users[k])
         == FirstMatch(ev, SortRules(rules), users[k])
  {
    var sorted := SortRules(rules);
    var gone := ShadowedIds(Reports(ev, sorted, users, |sorted|));
    SortKeep(rules, gone);
    FirstMatchStays(ev, sorted, users, k);
    FirstMatchKeptIff(ev, sorted, gone, users[k]);
  }

  /** Rules with distinct identifiers never clash. */
  lemma {:induction false} DistinctIdsDoNotClash(ev: Evaluator, sorted: seq<Rule>, users: seq<User>)
    requires DistinctIds(sorted)
    ensures NoClash(ev, sorted, users)
  {
  }

  // ---------------------------------------------------------------------------
  // One round is enough
  // ---------------------------------------------------------------------------

  /** Where the `i`-th remaining rule was before the deletion. */
  function Origin(s: seq<Rule>, gone: set<string>, i: nat): (r: nat)
    requires i < |Keep(s, gone)|
    ensures r < |s| && s[r] == Keep(s, gone)[i] && s[r].id !in gone
  {
    if s[0].id in gone then 1 + Origin(s[1..], gone, i)
    else if i == 0 then 0
    else 1 + Origin(s[1..], gone, i - 1)
  }

  lemma {:induction false} OriginIncreases(s: seq<Rule>, gone: set<string>, j: nat, i: nat)
    requires j < i < |Keep(s, gone)|
    ensures Origin(s, gone, j) < Origin(s, gone, i)
  {
    if s[0].id in gone {
      OriginIncreases(s[1..], gone, j, i);
    } else if j > 0 {
      OriginIncreases(s[1..], gone, j - 1, i - 1);
    }
  }

  /** Once the advice has been followed, no rule is reported as shadowed any more. */
  lemma {:induction false} OneRoundSuffices(ev: Evaluator, rules: seq<Rule>, users: seq<User>)
    ensures var sorted' := SortRules(FollowAdvice(ev, rules, users));
            ShadowedIds(Reports(ev, sorted', users, |sorted'|)) == {}
  {
    var sorted := SortRules(rules);
    var gone := ShadowedIds(Reports(ev, sorted, users, |sorted|));
    SortKeep(rules, gone);
    var sorted' := Keep(sorted, gone);
    forall id ensures id !in ShadowedIds(Reports(ev, sorted', users, |sorted'|)) {
      ShadowedIdsAre(ev, sorted', users, id);
      if i :| 0 <= i < |sorted'| && ShadowedAt(ev, sorted', users, i) {
        var j :| 0 <= j < i && Shadows(ev, sorted'[j], sorted'[i], users);
        var i' := Origin(sorted, gone, i);
        OriginIncreases(sorted, gone, j, i);
        assert sorted[Origin(sorted, gone, j)] == sorted'[j];
        assert ShadowedAt(ev, sorted, users, i');
        ShadowedIdsAre(ev, sorted, users, sorted[i'].id);
      }
    }
  }

  // ---------------------------------------------------------------------------
  // Limits of the advice
  // ---------------------------------------------------------------------------

  function CatchAll(id: string, priority: int): Rule {
    Rule(id, priority, [], 10000.0, "all")
  }

  lemma {:induction false} SortTwo(a: Rule, b: Rule)
    requires a.priority <= b.priority
    ensures SortRules([a, b]) == [a, b]
  {
    SortAppend([], a);
    SortAppend([a], b);
    assert [] + [a] == [a] && [a] + [b] == [a, b];
    assert [a][1..] == [];
  }

  lemma {:induction false} KeepTwo(a: Rule, b: Rule, gone: set<string>)
    ensures Keep([a, b], gone) == (if a.id in gone then [] else [a]) + (if b.id in gone then [] else [b])
  {
    KeepAppend([], a, gone);
    KeepAppend([a], b, gone);
    assert [] + [a] == [a] && [a] + [b] == [a, b];
  }

  /**
   For one sample user who matches two rules, the second is deleted, and the first
   with it if they share an identifier.
   */
  lemma {:induction false} ShadowedPair(ev: Evaluator, a: Rule, b: Rule, u: User)
    requires a.priority <= b.priority && a.percentage != 0.0 && b.percentage != 0.0 && ev(a, u) && ev(b, u)
    ensures FollowAdvice(ev, [a, b], [u]) == if a.id == b.id then [] else [a]
    ensures SortRules([a, b]) == [a, b]
  {
    SortTwo(a, b);
    var gone := ShadowedIds(Reports(ev, [a, b], [u], 2));
    assert Matched(ev, a, [u]) == {0} && Matched(ev, b, [u]) == {0};
    assert [a, b][0] == a && [a, b][1] == b;
    assert Shadows(ev, [a, b][0], [a, b][1], [u]);
    assert ShadowedAt(ev, [a, b], [u], 1);
    ShadowedIdsAre(ev, [a, b], [u], b.id);
    ShadowedIdsAre(ev, [a, b], [u], a.id);
    assert !ShadowedAt(ev, [a, b], [u], 0);
    KeepTwo(a, b, gone);
  }

  /** Two rules with one identifier: deleting the shadowed one by identifier deletes both. */
  lemma {:induction false} SharedIdLosesFirstMatch(host: Host)
    ensures exists rules: seq<Rule>, users: seq<User> :: |users| == 1
              && FirstMatch(RuleEvaluator(host), SortRules(rules), users[0]).Some?
              && FollowAdvice(RuleEvaluator(host), rules, users) == []
  {
    var u: User := map[];
    var a, b := CatchAll("r", 1), CatchAll("r", 2);
    ShadowedPair(RuleEvaluator(host), a, b, u);
    assert |[u]| == 1 && FirstMatch(RuleEvaluator(host), SortRules([a, b]), [u][0]) == Some(a);
  }

  /** The advice holds for the sample users only: someone outside the sample can lose the only rule that matches. */
  lemma {:induction false} AdviceIsAboutTheSample(host: Host)
    ensures exists rules: seq<Rule>, users: seq<User>, outsider: User ::
              var ev := RuleEvaluator(host);
              && NoClash(ev, SortRules(rules), users)
              && FirstMatch(ev, SortRules(rules), outsider).Some?
              && FirstMatch(ev, SortRules(FollowAdvice(ev, rules, users)), outsider) == None
  {
    var ev := RuleEvaluator(host);
    var u: User, outsider: User := map["country" := Text("DE")], map[];
    var german := Rule("a", 1, [Condition("country", "eq", ["DE"])], 10000.0, "all");
    var everyone := CatchAll("b", 2);
    var rules, users := [german, everyone], [u];
    assert ev(german, u) && !ev(german, outsider) by {
      assert "DE" in german.conditions[0].values;
      assert !EvaluateCondition(host, german.conditions[0], outsider);
    }
    assert SortRules(rules) == rules && FollowAdvice(ev, rules, users) == [german] by {
      ShadowedPair(ev, german, everyone, u);
    }
    assert SortRules([german]) == [german] by {
      SortAppend([], german);
      assert [] + [german] == [german];
    }
    assert NoClash(ev, SortRules(rules), users) by {
      DistinctIdsDoNotClash(ev, rules, users);
    }
    FirstMatchIs(ev, rules, outsider, 1);
    assert FirstMatch(ev, [german], outsider) == None;
  }
}
