/**
 What the advice to delete shadowed rules does to the rule that serves a user. The
 server goes through the rules in order and passes over one whose rollout does not
 reach the user's bucket, so a shadowed rule can serve users its shadow does not.
 */
module AdviceServing {
  import opened Common
  import opened TargetingRules
  import opened RuleConflicts
  import opened ConflictAdvice
  import opened AdviceSafety

  /** Users fall into this many buckets, and percentages are given in as many parts. */
  const BUCKETS := 10000

  predicate InRollout(r: Rule, bucket: nat) {
    r.percentage >= BUCKETS as real || (r.percentage > 0.0 && bucket as real < r.percentage)
  }

  /** The rule serves users in the given bucket whom it matches. */
  function ServedAt(matches: Evaluator, bucket: nat): Evaluator {
    (r: Rule, u: User) => matches(r, u) && InRollout(r, bucket)
  }

  /** The walk over the sorted rules returns the first one that serves the user. */
  method ServingRule(matches: Evaluator, sorted: seq<Rule>, u: User, bucket: nat) returns (serving: Option<Rule>)
    requires bucket < BUCKETS
    ensures serving == FirstMatch(ServedAt(matches, bucket), sorted, u)
  {
    for i := 0 to |sorted|
      invariant FirstMatch(ServedAt(matches, bucket), sorted[i..], u)
             == FirstMatch(ServedAt(matches, bucket), sorted, u)
    {
      var rule := sorted[i];
      assert sorted[i..][1..] == sorted[i + 1..];
      if matches(rule, u) {
        if rule.percentage >= BUCKETS as real {
          return Some(rule);
        }
        if rule.percentage > 0.0 {
          if bucket as real < rule.percentage {
            return Some(rule);
          }
        }
      }
    }
    return None;
  }

  /** How many buckets a rule serves, counted from the first. */
  function Reach(r: Rule): nat {
    if r.percentage >= BUCKETS as real then BUCKETS
    else if r.percentage > 0.0 then -(-r.percentage).Floor
    else 0
  }

  lemma {:induction false} ReachIsRollout(r: Rule, bucket: nat)
    requires bucket < BUCKETS
    ensures InRollout(r, bucket) <==> bucket < Reach(r)
    ensures Reach(r) <= 10000 && (Reach(r) == 10000 <==> r.percentage > 9999.0)
  {
  }

  // ---------------------------------------------------------------------------
  // One list of rules
  // ---------------------------------------------------------------------------

  /** Whatever the user's bucket, following the advice leaves the rule that serves the user. */
  ghost predicate ServiceKept(ev: Evaluator, matches: Evaluator, rules: seq<Rule>, users: seq<User>, u: User) {
    forall bucket: nat :: bucket < BUCKETS ==> MatchKept(ev, ServedAt(matches, bucket), rules, users, u)
  }

  /** The rule reaches a bucket that no match before it does. */
  ghost predicate Leads(matches: Evaluator, sorted: seq<Rule>, u: User, i: nat)
    requires i < |sorted|
  {
    && matches(sorted[i], u) && Reach(sorted[i]) > 0
    && forall h :: 0 <= h < i && matches(sorted[h], u) ==> Reach(sorted[h]) < Reach(sorted[i])
  }

  lemma {:induction false} LeaderServes(matches: Evaluator, sorted: seq<Rule>, u: User, i: nat) returns (bucket: nat)
    requires i < |sorted| && Leads(matches, sorted, u, i)
    ensures bucket < BUCKETS && FirstMatch(ServedAt(matches, bucket), sorted, u) == Some(sorted[i])
  {
    bucket := Reach(sorted[i]) - 1;
    ReachIsRollout(sorted[i], 0);
    forall h | 0 <= h <= i ensures ServedAt(matches, bucket)(sorted[h], u) <==> h == i {
      ReachIsRollout(sorted[h], bucket);
    }
    FirstMatchIs(ServedAt(matches, bucket), sorted, u, i);
  }

  lemma {:induction false} ServerLeads(matches: Evaluator, sorted: seq<Rule>, u: User, bucket: nat) returns (i: nat)
    requires bucket < BUCKETS && FirstMatch(ServedAt(matches, bucket), sorted, u).Some?
    ensures i < |sorted| && Leads(matches, sorted, u, i)
    ensures FirstMatch(ServedAt(matches, bucket), sorted, u) == Some(sorted[i])
  {
    i := FirstMatchAt(ServedAt(matches, bucket), sorted, u);
    forall h | 0 <= h <= i && matches(sorted[h], u) ensures bucket < Reach(sorted[h]) <==> h == i {
      ReachIsRollout(sorted[h], bucket);
      assert h < i ==> !ServedAt(matches, bucket)(sorted[h], u);
    }
  }

  /** No rule that leads for the user shares its identifier with a shadowed one. */
  ghost predicate LeadersSpared(ev: Evaluator, matches: Evaluator, sorted: seq<Rule>, users: seq<User>, u: User) {
    forall i :: 0 <= i < |sorted| && Leads(matches, sorted, u, i) ==> Spared(ev, sorted, users, sorted[i].id)
  }

  /**
   Following the advice leaves the serving rule for every bucket exactly when no rule
   that leads for the user shares its identifier with a shadowed one.
   */
  lemma {:induction false} ServiceKeptIff(ev: Evaluator, matches: Evaluator, rules: seq<Rule>, users: seq<User>,
                                          u: User)
    ensures var sorted := SortRules(rules);
            ServiceKept(ev, matches, rules, users, u) <==> LeadersSpared(ev, matches, sorted, users, u)
  {
    var sorted := SortRules(rules);
    if ServiceKept(ev, matches, rules, users, u) {
      forall i | 0 <= i < |sorted| && Leads(matches, sorted, u, i) ensures Spared(ev, sorted, users, sorted[i].id) {
        var bucket := LeaderServes(matches, sorted, u, i);
        FirstMatchSurvivesIff(ev, ServedAt(matches, bucket), rules, users, u);
      }
    }
    if LeadersSpared(ev, matches, sorted, users, u) {
      forall bucket: nat | bucket < BUCKETS ensures MatchKept(ev, ServedAt(matches, bucket), rules, users, u) {
        FirstMatchSurvivesIff(ev, ServedAt(matches, bucket), rules, users, u);
        if FirstMatch(ServedAt(matches, bucket), sorted, u).Some? {
          var i := ServerLeads(matches, sorted, u, bucket);
        }
      }
    }
  }

  /** A match before rule `i` reaches at least as far. */
  ghost predicate Covered(matches: Evaluator, sorted: seq<Rule>, u: User, i: nat)
    requires i < |sorted|
  {
    exists j :: 0 <= j < i && matches(sorted[j], u) && Reach(sorted[j]) >= Reach(sorted[i])
  }

  /**
   With distinct identifiers the serving rule stays for every bucket exactly when each
   shadowed rule the user matches has a match before it that reaches as far.
   */
  lemma {:induction false} DistinctServiceKeptIff(ev: Evaluator, matches: Evaluator, rules: seq<Rule>,
                                                  users: seq<User>, u: User)
    requires DistinctIds(SortRules(rules))
    ensures var sorted := SortRules(rules);
            ServiceKept(ev, matches, rules, users, u) <==>
              forall i :: 0 <= i < |sorted| && Reach(sorted[i]) > 0 && matches(sorted[i], u) ==>
                ShadowedAt(ev, sorted, users, i) ==> Covered(matches, sorted, u, i)
  {
    var sorted := SortRules(rules);
    ServiceKeptIff(ev, matches, rules, users, u);
    forall i | 0 <= i < |sorted|
      ensures Leads(matches, sorted, u, i) <==>
                matches(sorted[i], u) && Reach(sorted[i]) > 0 && !Covered(matches, sorted, u, i)
    {
    }
    forall i | 0 <= i < |sorted|
      ensures Spared(ev, sorted, users, sorted[i].id) <==> !ShadowedAt(ev, sorted, users, i)
    {
    }
  }

  lemma {:induction false} OutsideRollout(matches: Evaluator, a: Rule, b: Rule, u: User, bucket: nat)
    requires !InRollout(a, bucket) && matches(b, u) && InRollout(b, bucket)
    ensures FirstMatch(ServedAt(matches, bucket), [a, b], u) == Some(b)
    ensures FirstMatch(ServedAt(matches, bucket), [a], u) == None
  {
    FirstMatchIs(ServedAt(matches, bucket), [a, b], u, 1);
  }

  /** Two catch-all rules, of which the first serves half of the users and the other everyone. */
  lemma {:induction false} PartialRolloutLoses(host: Host)
    ensures exists rules: seq<Rule>, users: seq<User>, bucket: nat ::
              var ev := RuleEvaluator(host);
              && |users| == 1 && bucket < BUCKETS && NoClash(ev, SortRules(rules), users)
              && FirstMatch(ServedAt(ev, bucket), SortRules(rules), users[0]).Some?
              && FirstMatch(ServedAt(ev, bucket), SortRules(FollowAdvice(ev, rules, users)), users[0]) == None
  {
    var ev := RuleEvaluator(host);
    var u: User := map[];
    var half, all := CatchAll("a", 1).(percentage := 5000.0), CatchAll("b", 2);
    var rules, users, bucket := [half, all], [u], 7500;
    assert SortRules(rules) == rules && FollowAdvice(ev, rules, users) == [half] by {
      ShadowedPair(ev, half, all, u);
    }
    assert SortRules([half]) == [half] by {
      SortAppend([], half);
      assert [] + [half] == [half];
    }
    assert NoClash(ev, rules, users) by {
      DistinctIdsDoNotClash(ev, rules, users);
    }
    OutsideRollout(ev, half, all, u, bucket);
    assert |users| == 1 && users[0] == u && bucket < BUCKETS && NoClash(ev, SortRules(rules), users);
  }

  // ---------------------------------------------------------------------------
  // All conditions and samples
  // ---------------------------------------------------------------------------

  /** Identifiers and rollouts of the live rules after a live one. */
  ghost predicate SafeRollouts(sorted: seq<Rule>) {
    forall h, j :: 0 <= h < j < |sorted| && Live(sorted[h]) && Live(sorted[j]) ==>
      && Reach(sorted[j]) <= Reach(sorted[h])
      && forall i :: 0 <= i < |sorted| && i != j && sorted[i].id == sorted[j].id ==> Reach(sorted[i]) == 0
  }

  lemma {:induction false} SafeRolloutsKeep(ev: Evaluator, rules: seq<Rule>, users: seq<User>, u: User)
    requires SafeRollouts(SortRules(rules)) && u in users
    ensures ServiceKept(ev, ev, rules, users, u)
  {
    var sorted := SortRules(rules);
    ServiceKeptIff(ev, ev, rules, users, u);
    forall i, j | 0 <= i < |sorted| && 0 <= j < |sorted| && Leads(ev, sorted, u, i) && sorted[j].id == sorted[i].id
      ensures !ShadowedAt(ev, sorted, users, j)
    {
      var k :| 0 <= k < |users| && users[k] == u;
      assert i == j ==> k in Matched(ev, sorted[j], users);
      forall h | 0 <= h < j ensures !Shadows(ev, sorted[h], sorted[j], users) {
        assert i == j && k in Matched(ev, sorted[h], users) ==> ev(sorted[h], u);
      }
    }
  }

  lemma {:induction false} RedressedRollouts(sorted: seq<Rule>, sorted': seq<Rule>)
    requires Redressed(sorted, sorted') && SafeRollouts(sorted)
    ensures SafeRollouts(sorted')
  {
    forall h, j | 0 <= h < j < |sorted'| && Live(sorted'[h]) && Live(sorted'[j])
      ensures Reach(sorted'[j]) <= Reach(sorted'[h])
      ensures forall i :: 0 <= i < |sorted'| && i != j && sorted'[i].id == sorted'[j].id ==> Reach(sorted'[i]) == 0
    {
      assert Live(sorted[h]) && Live(sorted[j]);
      assert forall i :: 0 <= i < |sorted| ==> sorted[i].id == sorted'[i].id && Reach(sorted[i]) == Reach(sorted'[i]);
    }
  }

  ghost predicate CanLose(host: Host, rules: seq<Rule>) {
    exists rules': seq<Rule>, users: seq<User>, u: User :: Redressed(rules, rules') && u in users
      && !ServiceKept(RuleEvaluator(host), RuleEvaluator(host), rules', users, u)
  }

  /** A shadowed rule that shares its identifier takes one that serves with it. */
  lemma {:induction false} SharedIdLoses(host: Host, rules: seq<Rule>, h: nat, j: nat, i: nat)
    requires var sorted := SortRules(rules);
             && h < j < |sorted| && i < |sorted| && i != j && sorted[i].id == sorted[j].id
             && Live(sorted[h]) && Live(sorted[j]) && Reach(sorted[i]) > 0
    ensures CanLose(host, rules)
  {
    var ev, u, v := RuleEvaluator(host), Someone("u"), Someone("v");
    var rules' := Clash(host, rules, h, j, i);
    assert Leads(ev, SortRules(rules'), u, i);
    ServiceKeptIff(ev, ev, rules', [u, v], u);
    assert u in [u, v];
  }

  function Both(h: int, j: int): int -> seq<string> {
    k => if k == h || k == j then ["u"] else []
  }

  /** A shadowed rule that reaches further than its shadow serves someone its shadow does not. */
  lemma {:induction false} WiderRuleLoses(host: Host, rules: seq<Rule>, h: nat, j: nat)
    requires var sorted := SortRules(rules);
             && h < j < |sorted| && Live(sorted[h]) && Live(sorted[j]) && Reach(sorted[h]) < Reach(sorted[j])
    ensures CanLose(host, rules)
  {
    var ev, u := RuleEvaluator(host), Someone("u");
    var rules' := Stage(host, rules, Both(h, j));
    var sorted := SortRules(rules');
    forall k | 0 <= k < |sorted| ensures ev(sorted[k], u) <==> k == h || k == j {
      assert "u" in Both(h, j)(k) <==> k == h || k == j;
    }
    assert Matched(ev, sorted[h], [u]) == {0} && Matched(ev, sorted[j], [u]) == {0};
    assert Shadows(ev, sorted[h], sorted[j], [u]);
    assert ShadowedAt(ev, sorted, [u], j) && Leads(ev, sorted, u, j);
    ServiceKeptIff(ev, ev, rules', [u], u);
    assert u in [u];
  }

  /**
   Whatever the conditions of the rules, whoever is in the sample and whatever the
   buckets, following the advice leaves the rule that serves each sample user, exactly
   when no live rule reaches further than a live one before it, and those after a live
   one share their identifier only with rules that serve nobody.
   */
  lemma {:induction false} ServiceSafeIff(host: Host, rules: seq<Rule>)
    ensures (forall rules': seq<Rule>, users: seq<User>, u: User :: Redressed(rules, rules') && u in users ==>
               ServiceKept(RuleEvaluator(host), RuleEvaluator(host), rules', users, u))
            <==> SafeRollouts(SortRules(rules))
  {
    var sorted := SortRules(rules);
    if SafeRollouts(sorted) {
      forall rules': seq<Rule>, users: seq<User>, u: User | Redressed(rules, rules') && u in users
        ensures ServiceKept(RuleEvaluator(host), RuleEvaluator(host), rules', users, u)
      {
        RedressedSort(rules, rules');
        RedressedRollouts(sorted, SortRules(rules'));
        SafeRolloutsKeep(RuleEvaluator(host), rules', users, u);
      }
    } else {
      var h, j :| 0 <= h < j < |sorted| && Live(sorted[h]) && Live(sorted[j])
               && !(Reach(sorted[j]) <= Reach(sorted[h])
                    && forall i :: 0 <= i < |sorted| && i != j && sorted[i].id == sorted[j].id ==>
                         Reach(sorted[i]) == 0);
      if Reach(sorted[h]) < Reach(sorted[j]) {
        WiderRuleLoses(host, rules, h, j);
      } else {
        var i :| 0 <= i < |sorted| && i != j && sorted[i].id == sorted[j].id && Reach(sorted[i]) > 0;
        SharedIdLoses(host, rules, h, j, i);
      }
    }
  }
}
