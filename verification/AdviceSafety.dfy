/** For which rule lists the advice to delete shadowed rules by identifier keeps the first match. */
module AdviceSafety {
  import opened Common
  import opened TargetingRules
  import opened RuleConflicts
  import opened ConflictAdvice

  predicate Live(r: Rule) {
    r.percentage != 0.0
  }

  /** Following the advice leaves a user's first match; `matches` need not be what the detector evaluates. */
  ghost predicate MatchKept(ev: Evaluator, matches: Evaluator, rules: seq<Rule>, users: seq<User>, u: User) {
    FirstMatch(matches, SortRules(FollowAdvice(ev, rules, users)), u) == FirstMatch(matches, SortRules(rules), u)
  }

  /** No rule with this identifier is shadowed. */
  ghost predicate Spared(ev: Evaluator, sorted: seq<Rule>, users: seq<User>, id: string) {
    forall j :: 0 <= j < |sorted| && sorted[j].id == id ==> !ShadowedAt(ev, sorted, users, j)
  }

  /** For this sample the advice keeps a user's first match exactly when no shadowed rule has its identifier. */
  lemma {:induction false} FirstMatchSurvivesIff(ev: Evaluator, matches: Evaluator, rules: seq<Rule>, users: seq<User>,
                                                 u: User)
    ensures var first := FirstMatch(matches, SortRules(rules), u);
            MatchKept(ev, matches, rules, users, u) <==>
              first.Some? ==> Spared(ev, SortRules(rules), users, first.value.id)
  {
    var sorted := SortRules(rules);
    var gone := ShadowedIds(Reports(ev, sorted, users, |sorted|));
    var first := FirstMatch(matches, sorted, u);
    SortKeep(rules, gone);
    FirstMatchKeptIff(matches, sorted, gone, u);
    if first.Some? {
      ShadowedIdsAre(ev, sorted, users, first.value.id);
    }
  }

  predicate HasLiveBefore(sorted: seq<Rule>, j: nat)
    requires j <= |sorted|
  {
    exists h :: 0 <= h < j && Live(sorted[h])
  }

  /** A rule that shares its identifier is dead, or no live rule precedes it. */
  ghost predicate SafeIds(sorted: seq<Rule>) {
    forall i, j :: 0 <= i < |sorted| && 0 <= j < |sorted| && i != j && sorted[i].id == sorted[j].id ==>
      !Live(sorted[j]) || !HasLiveBefore(sorted, j)
  }

  lemma {:induction false} SafeIdsDoNotClash(ev: Evaluator, sorted: seq<Rule>, users: seq<User>)
    requires SafeIds(sorted)
    ensures NoClash(ev, sorted, users)
  {
    forall j | 0 <= j < |sorted| && ShadowedAt(ev, sorted, users, j)
      ensures Live(sorted[j]) && HasLiveBefore(sorted, j)
    {
    }
  }

  // ---------------------------------------------------------------------------
  // The same rules with other conditions
  // ---------------------------------------------------------------------------

  /** The rules differ in their conditions only. */
  ghost predicate Redressed(a: seq<Rule>, b: seq<Rule>) {
    |a| == |b| && forall k :: 0 <= k < |a| ==> b[k] == a[k].(conditions := b[k].conditions)
  }

  lemma {:induction false} RedressedTail(a: seq<Rule>, b: seq<Rule>)
    requires Redressed(a, b) && a != []
    ensures b[0] == a[0].(conditions := b[0].conditions) && Redressed(a[1..], b[1..])
  {
    assert forall k :: 0 <= k < |a| - 1 ==> a[1..][k] == a[k + 1] && b[1..][k] == b[k + 1];
  }

  lemma {:induction false} RedressedCons(r: Rule, s: seq<Rule>, r': Rule, s': seq<Rule>)
    requires r' == r.(conditions := r'.conditions) && Redressed(s, s')
    ensures Redressed([r] + s, [r'] + s')
  {
  }

  lemma {:induction false} RedressedInsert(r: Rule, s: seq<Rule>, t: seq<Rule>) returns (r': Rule, s': seq<Rule>)
    requires Redressed(Insert(r, s), t)
    ensures r' == r.(conditions := r'.conditions) && Redressed(s, s') && Insert(r', s') == t
  {
    RedressedTail(Insert(r, s), t);
    if s == [] || r.priority < s[0].priority {
      assert Insert(r, s)[1..] == s;
      r', s' := t[0], t[1..];
    } else {
      assert Insert(r, s)[1..] == Insert(r, s[1..]);
      r', s' := RedressedInsert(r, s[1..], t[1..]);
      RedressedCons(s[0], s[1..], t[0], s');
      assert ([t[0]] + s')[1..] == s';
      s' := [t[0]] + s';
    }
  }

  /** Conditions can be given out by the places the rules are sorted to. */
  lemma {:induction false} Realized(rules: seq<Rule>, t: seq<Rule>) returns (rules': seq<Rule>)
    requires Redressed(SortRules(rules), t)
    ensures Redressed(rules, rules') && SortRules(rules') == t
  {
    if rules == [] {
      rules' := [];
    } else {
      var init, last := rules[..|rules| - 1], rules[|rules| - 1];
      var last', t' := RedressedInsert(last, SortRules(init), t);
      var init' := Realized(init, t');
      SortAppend(init', last');
      rules' := init' + [last'];
    }
  }

  function Someone(name: string): User {
    map["user" := Text(name)]
  }

  function Named(r: Rule, names: seq<string>): Rule {
    r.(conditions := [Condition("user", "eq", names)])
  }

  lemma {:induction false} NamedMatches(host: Host, r: Rule, names: seq<string>, name: string)
    ensures EvaluateRule(host, Named(r, names), Someone(name)) <==> name in names
  {
    var c := Condition("user", "eq", names);
    assert Named(r, names).conditions[0] == c;
    assert EvaluateCondition(host, c, Someone(name)) <==> name in names;
  }

  /** Rule `k` of the sorted list matches just the users named in `who(k)`. */
  ghost predicate Staged(host: Host, sorted: seq<Rule>, who: int -> seq<string>) {
    forall k, name :: 0 <= k < |sorted| ==> (RuleEvaluator(host)(sorted[k], Someone(name)) <==> name in who(k))
  }

  lemma {:induction false} Stage(host: Host, rules: seq<Rule>, who: int -> seq<string>) returns (rules': seq<Rule>)
    ensures Redressed(rules, rules') && Redressed(SortRules(rules), SortRules(rules'))
    ensures Staged(host, SortRules(rules'), who)
  {
    var sorted := SortRules(rules);
    var t := seq(|sorted|, k requires 0 <= k < |sorted| => Named(sorted[k], who(k)));
    forall k | 0 <= k < |t| ensures t[k] == sorted[k].(conditions := t[k].conditions) {
      assert t[k] == Named(sorted[k], who(k));
    }
    rules' := Realized(rules, t);
    forall k, name | 0 <= k < |t| ensures RuleEvaluator(host)(t[k], Someone(name)) <==> name in who(k) {
      NamedMatches(host, sorted[k], who(k), name);
    }
  }

  // ---------------------------------------------------------------------------
  // When the first match is kept
  // ---------------------------------------------------------------------------

  /** One user matches only `i`; another matches the rules at `h` and `j`, and no other but perhaps `i`. */
  function Clashing(h: int, j: int, i: int): int -> seq<string> {
    k => (if k == i then ["u"] else []) + (if k == h || k == j then ["v"] else [])
  }

  lemma {:induction false} ClashingShadows(host: Host, sorted: seq<Rule>, h: nat, j: nat, i: nat)
    requires h < j < |sorted| && i < |sorted| && i != j && Live(sorted[h]) && Live(sorted[j])
    requires Staged(host, sorted, Clashing(h, j, i))
    ensures ShadowedAt(RuleEvaluator(host), sorted, [Someone("u"), Someone("v")], j)
    ensures forall k :: 0 <= k < |sorted| ==> (RuleEvaluator(host)(sorted[k], Someone("u")) <==> k == i)
  {
    var ev, who, users := RuleEvaluator(host), Clashing(h, j, i), [Someone("u"), Someone("v")];
    assert users[0] == Someone("u") && users[1] == Someone("v");
    forall k | 0 <= k < |sorted|
      ensures ev(sorted[k], users[0]) <==> k == i
      ensures k == h || k == j ==> ev(sorted[k], users[1])
    {
      assert "u" in who(k) <==> k == i;
      assert k == h || k == j ==> "v" in who(k);
    }
    assert Matched(ev, sorted[j], users) == {1} && 1 in Matched(ev, sorted[h], users);
    assert Shadows(ev, sorted[h], sorted[j], users);
  }

  /** A user who matches only rule `i` loses it with the shadowed rule `j` of the same identifier. */
  lemma {:induction false} Clash(host: Host, rules: seq<Rule>, h: nat, j: nat, i: nat) returns (rules': seq<Rule>)
    requires var sorted := SortRules(rules);
             && h < j < |sorted| && i < |sorted| && i != j && sorted[i].id == sorted[j].id
             && Live(sorted[h]) && Live(sorted[j])
    ensures var sorted, ev, users := SortRules(rules'), RuleEvaluator(host), [Someone("u"), Someone("v")];
            && Redressed(rules, rules') && Redressed(SortRules(rules), sorted)
            && ShadowedAt(ev, sorted, users, j) && sorted[i].id == sorted[j].id
            && forall k :: 0 <= k < |sorted| ==> (ev(sorted[k], Someone("u")) <==> k == i)
  {
    rules' := Stage(host, rules, Clashing(h, j, i));
    ClashingShadows(host, SortRules(rules'), h, j, i);
  }

  lemma {:induction false} UnsafeIdsHarm(host: Host, rules: seq<Rule>, i: nat, j: nat)
    requires var sorted := SortRules(rules);
             && i < |sorted| && j < |sorted| && i != j && sorted[i].id == sorted[j].id
             && Live(sorted[j]) && HasLiveBefore(sorted, j)
    ensures exists rules': seq<Rule>, users: seq<User>, u: User :: Redressed(rules, rules') && u in users
              && !MatchKept(RuleEvaluator(host), RuleEvaluator(host), rules', users, u)
  {
    var ev, u, v := RuleEvaluator(host), Someone("u"), Someone("v");
    var h :| 0 <= h < j && Live(SortRules(rules)[h]);
    var rules' := Clash(host, rules, h, j, i);
    FirstMatchIs(ev, SortRules(rules'), u, i);
    FirstMatchSurvivesIff(ev, ev, rules', [u, v], u);
    assert u in [u, v];
  }

  /**
   Whatever the conditions of the rules and whoever is in the sample, following the advice
   keeps every sample user's first match, exactly when every rule that shares its
   identifier is dead or has no live rule before it.
   */
  lemma {:induction false} AdviceSafeIff(host: Host, rules: seq<Rule>)
    ensures (forall rules': seq<Rule>, users: seq<User>, u: User :: Redressed(rules, rules') && u in users ==>
               MatchKept(RuleEvaluator(host), RuleEvaluator(host), rules', users, u))
            <==> SafeIds(SortRules(rules))
  {
    var sorted := SortRules(rules);
    if SafeIds(sorted) {
      forall rules': seq<Rule>, users: seq<User>, u: User | Redressed(rules, rules') && u in users
        ensures MatchKept(RuleEvaluator(host), RuleEvaluator(host), rules', users, u)
      {
        var k :| 0 <= k < |users| && users[k] == u;
        RedressedSort(rules, rules');
        RedressedSafe(sorted, SortRules(rules'));
        SafeIdsDoNotClash(RuleEvaluator(host), SortRules(rules'), users);
        AdviceKeepsFirstMatch(RuleEvaluator(host), rules', users, k);
      }
    } else {
      var i, j :| 0 <= i < |sorted| && 0 <= j < |sorted| && i != j && sorted[i].id == sorted[j].id
               && Live(sorted[j]) && HasLiveBefore(sorted, j);
      UnsafeIdsHarm(host, rules, i, j);
    }
  }

  lemma {:induction false} RedressedSafe(sorted: seq<Rule>, sorted': seq<Rule>)
    requires Redressed(sorted, sorted') && SafeIds(sorted)
    ensures SafeIds(sorted')
  {
    forall i, j | 0 <= i < |sorted'| && 0 <= j < |sorted'| && i != j && sorted'[i].id == sorted'[j].id
      ensures !Live(sorted'[j]) || !HasLiveBefore(sorted', j)
    {
      assert sorted[i].id == sorted[j].id;
      if h :| Live(sorted'[j]) && 0 <= h < j && Live(sorted'[h]) {
        assert Live(sorted[h]) && Live(sorted[j]);
      }
    }
  }

  lemma {:induction false} InsertRedressed(r: Rule, s: seq<Rule>, r': Rule, s': seq<Rule>)
    requires r' == r.(conditions := r'.conditions) && Redressed(s, s')
    ensures Redressed(Insert(r, s), Insert(r', s'))
  {
    if s == [] || r.priority < s[0].priority {
      assert s != [] ==> s'[0].priority == s[0].priority;
      RedressedCons(r, s, r', s');
    } else {
      RedressedTail(s, s');
      InsertRedressed(r, s[1..], r', s'[1..]);
      RedressedCons(s[0], Insert(r, s[1..]), s'[0], Insert(r', s'[1..]));
    }
  }

  /** Sorting looks at priorities only. */
  lemma {:induction false} RedressedSort(rules: seq<Rule>, rules': seq<Rule>)
    requires Redressed(rules, rules')
    ensures Redressed(SortRules(rules), SortRules(rules'))
  {
    if rules != [] {
      var n := |rules| - 1;
      RedressedSort(rules[..n], rules'[..n]);
      InsertRedressed(rules[n], SortRules(rules[..n]), rules'[n], SortRules(rules'[..n]));
    }
  }
}
