/** Targeting rules and how the dashboard evaluates one of them against a user. */
module TargetingRules {
  import opened Common

  /** An attribute that is neither missing nor null: a string, or something with a string form. */
  datatype Value = Text(text: string) | Rendered(text: string)

  type User = map<string, Value>

  datatype Condition = Condition(attribute: string, operator: string, values: seq<string>)

  datatype Rule = Rule(id: string, priority: int, conditions: seq<Condition>, percentage: real, matchType: string)

  /** What `parseFloat` can return. */
  datatype Number = NaN | Finite(value: real) | PosInfinity | NegInfinity

  /** The library calls conditions rely on; a pattern that does not compile gives None. */
  datatype Host = Host(parseFloat: string -> Number, test: (string, string) -> Option<bool>, trim: string -> string)

  predicate Less(a: Number, b: Number) {
    match (a, b)
    case (Finite(x), Finite(y)) => x < y
    case (NegInfinity, Finite(_)) => true
    case (NegInfinity, PosInfinity) => true
    case (Finite(_), PosInfinity) => true
    case _ => false
  }

  predicate LessOrSame(a: Number, b: Number) {
    Less(a, b) || (a == b && a != NaN)
  }

  predicate EndsWith(s: string, v: string) {
    |v| <= |s| && s[|s| - |v|..] == v
  }

  function Split(s: string, sep: char): seq<string> {
    if s == "" then [""]
    else
      var rest := Split(s[1..], sep);
      if s[0] == sep then [""] + rest
      else if rest == [] then [[s[0]]] else [[s[0]] + rest[0]] + rest[1..]
  }

  /** All values of a list condition, each split at commas and trimmed. */
  function Listed(host: Host, values: seq<string>): seq<string> {
    if values == [] then []
    else
      var parts := Split(values[0], ',');
      seq(|parts|, i requires 0 <= i < |parts| => host.trim(parts[i])) + Listed(host, values[1..])
  }

  /** Patterns are tried in order; one that does not compile makes the condition false. */
  predicate SomePatternMatches(host: Host, values: seq<string>, s: string) {
    if values == [] then false
    else match host.test(values[0], s)
      case None => false
      case Some(true) => true
      case Some(false) => SomePatternMatches(host, values[1..], s)
  }

  predicate EvaluateCondition(host: Host, c: Condition, user: User) {
    var s := if c.attribute in user then user[c.attribute].text else "";
    var num := host.parseFloat(s);
    if c.operator == "eq" then exists v :: v in c.values && s == v
    else if c.operator == "neq" then forall v :: v in c.values ==> s != v
    else if c.operator == "contains" then exists v :: v in c.values && Includes(s, v)
    else if c.operator == "startsWith" then exists v :: v in c.values && v <= s
    else if c.operator == "endsWith" then exists v :: v in c.values && EndsWith(s, v)
    else if c.operator == "in" then s in Listed(host, c.values)
    else if c.operator == "notIn" || c.operator == "not_in" then s !in Listed(host, c.values)
    else if c.operator == "gt" then exists v :: v in c.values && Less(host.parseFloat(v), num)
    else if c.operator == "gte" then exists v :: v in c.values && LessOrSame(host.parseFloat(v), num)
    else if c.operator == "lt" then exists v :: v in c.values && Less(num, host.parseFloat(v))
    else if c.operator == "lte" then exists v :: v in c.values && LessOrSame(num, host.parseFloat(v))
    else if c.operator == "regex" then SomePatternMatches(host, c.values, s)
    else if c.operator == "exists" then c.attribute in user && user[c.attribute] != Text("")
    else false
  }

  predicate EvaluateRule(host: Host, rule: Rule, user: User) {
    if rule.conditions == [] then rule.percentage > 0.0
    else if rule.matchType == "any" then
      exists i :: 0 <= i < |rule.conditions| && EvaluateCondition(host, rule.conditions[i], user)
    else
      forall i :: 0 <= i < |rule.conditions| ==> EvaluateCondition(host, rule.conditions[i], user)
  }

  /** The operators that hold unless some value matches. */
  predicate Negative(operator: string) {
    operator == "neq" || operator == "notIn" || operator == "not_in"
  }

  /** A condition the detector calls impossible: it needs values and has none. */
  predicate Valueless(c: Condition) {
    c.values == [] && c.operator != "exists"
  }

  /** To the dashboard a valueless condition holds for every user if its operator is negative, else for none. */
  lemma {:induction false} ValuelessMeaning(host: Host, c: Condition, user: User)
    requires Valueless(c)
    ensures EvaluateCondition(host, c, user) <==> Negative(c.operator)
  {
    assert Listed(host, c.values) == [];
  }

  /** By the detector's own evaluator its warning is right exactly for operators that are not negative. */
  lemma {:induction false} ImpossibleIffNotNegative(host: Host, c: Condition)
    requires Valueless(c)
    ensures (forall user: User :: !EvaluateCondition(host, c, user)) <==> !Negative(c.operator)
  {
    forall user: User ensures EvaluateCondition(host, c, user) <==> Negative(c.operator) {
      ValuelessMeaning(host, c, user);
    }
    var someone: User := map[];
    assert EvaluateCondition(host, c, someone) <==> Negative(c.operator);
  }

  // ---------------------------------------------------------------------------
  // What the values of a condition add up to
  // ---------------------------------------------------------------------------

  /** The attribute's text as the operators see it. */
  function TextOf(c: Condition, user: User): string {
    if c.attribute in user then user[c.attribute].text else ""
  }

  /** Every pattern among the values compiles. */
  ghost predicate Compiles(host: Host, c: Condition, user: User) {
    forall v :: v in c.values ==> host.test(v, TextOf(c, user)).Some?
  }

  lemma {:induction false} ListedAppend(host: Host, values: seq<string>, v: string)
    ensures Listed(host, values + [v]) == Listed(host, values) + Listed(host, [v])
  {
    if values == [] {
      assert [] + [v] == [v];
    } else {
      assert (values + [v])[1..] == values[1..] + [v];
      ListedAppend(host, values[1..], v);
    }
  }

  lemma {:induction false} PatternsAppend(host: Host, values: seq<string>, v: string, s: string)
    ensures SomePatternMatches(host, values + [v], s) <==>
            || SomePatternMatches(host, values, s)
            || ((forall w :: w in values ==> host.test(w, s).Some?) && host.test(v, s) == Some(true))
  {
    if values == [] {
      assert [v][1..] == [];
    } else {
      assert (values + [v])[1..] == values[1..] + [v];
      PatternsAppend(host, values[1..], v, s);
      assert forall w :: w in values <==> w == values[0] || w in values[1..];
    }
  }

  /** What one more value does to a condition, in terms of the value on its own. */
  ghost predicate AddsUp(host: Host, c: Condition, v: string, user: User) {
    var more, alone := c.(values := c.values + [v]), c.(values := [v]);
    EvaluateCondition(host, more, user) <==>
      if Negative(c.operator) then EvaluateCondition(host, c, user) && EvaluateCondition(host, alone, user)
      else
        || EvaluateCondition(host, c, user)
        || ((c.operator == "regex" ==> Compiles(host, c, user)) && EvaluateCondition(host, alone, user))
  }

  lemma {:induction false} OneMorePattern(host: Host, c: Condition, v: string, user: User)
    requires c.operator == "regex"
    ensures AddsUp(host, c, v, user)
  {
    PatternsAppend(host, c.values, v, TextOf(c, user));
    assert SomePatternMatches(host, [v], TextOf(c, user)) <==> host.test(v, TextOf(c, user)) == Some(true) by {
      assert [v][1..] == [];
    }
  }

  lemma {:induction false} OneMoreListed(host: Host, c: Condition, v: string, user: User)
    requires c.operator == "in" || c.operator == "notIn" || c.operator == "not_in"
    ensures AddsUp(host, c, v, user)
  {
    ListedAppend(host, c.values, v);
  }

  /**
   A condition asks for any of its values: one more value widens it by what that value
   alone would match. With a negative operator it narrows it likewise, and after a
   pattern that does not compile it adds nothing.
   */
  lemma {:induction false} OneMoreValue(host: Host, c: Condition, v: string, user: User)
    ensures AddsUp(host, c, v, user)
  {
    if c.operator == "regex" {
      OneMorePattern(host, c, v, user);
    } else if c.operator == "in" || c.operator == "notIn" || c.operator == "not_in" {
      OneMoreListed(host, c, v, user);
    } else {
      assert v in c.values + [v] && v in [v] && forall w :: w in c.values ==> w in c.values + [v];
    }
  }

  // ---------------------------------------------------------------------------
  // Rules with a valueless condition
  // ---------------------------------------------------------------------------

  predicate HasValueless(rule: Rule) {
    exists i :: 0 <= i < |rule.conditions| && Valueless(rule.conditions[i])
  }

  /** Some valueless condition always holds, or never does. */
  predicate HasIdle(rule: Rule, negative: bool) {
    exists i :: 0 <= i < |rule.conditions| && Valueless(rule.conditions[i])
             && Negative(rule.conditions[i].operator) == negative
  }

  predicate SomeValuedHolds(host: Host, rule: Rule, user: User) {
    exists i :: 0 <= i < |rule.conditions| && !Valueless(rule.conditions[i])
             && EvaluateCondition(host, rule.conditions[i], user)
  }

  predicate EveryValuedHolds(host: Host, rule: Rule, user: User) {
    forall i :: 0 <= i < |rule.conditions| && !Valueless(rule.conditions[i]) ==>
      EvaluateCondition(host, rule.conditions[i], user)
  }

  /** What a rule with a valueless condition matches, in terms of its other conditions. */
  lemma {:induction false} WarnedRuleMatches(host: Host, rule: Rule, user: User)
    requires HasValueless(rule)
    ensures EvaluateRule(host, rule, user) <==>
              if rule.matchType == "any" then HasIdle(rule, true) || SomeValuedHolds(host, rule, user)
              else !HasIdle(rule, false) && EveryValuedHolds(host, rule, user)
  {
    forall i | 0 <= i < |rule.conditions| && Valueless(rule.conditions[i])
      ensures EvaluateCondition(host, rule.conditions[i], user) <==> Negative(rule.conditions[i].operator)
    {
      ValuelessMeaning(host, rule.conditions[i], user);
    }
  }

  /**
   By the same evaluator the warning that a rule may never match because of a valueless condition is right
   exactly when the condition spoils an "all" rule, or the other conditions match nobody
   and no valueless one holds for an "any" rule.
   */
  lemma {:induction false} NeverMatchesIff(host: Host, rule: Rule)
    requires HasValueless(rule)
    ensures (forall user: User :: !EvaluateRule(host, rule, user)) <==>
              if rule.matchType == "any" then
                !HasIdle(rule, true) && forall user: User :: !SomeValuedHolds(host, rule, user)
              else
                HasIdle(rule, false) || forall user: User :: !EveryValuedHolds(host, rule, user)
  {
    forall user: User
      ensures EvaluateRule(host, rule, user) <==>
                if rule.matchType == "any" then HasIdle(rule, true) || SomeValuedHolds(host, rule, user)
                else !HasIdle(rule, false) && EveryValuedHolds(host, rule, user)
    {
      WarnedRuleMatches(host, rule, user);
    }
    var someone: User := map[];
    assert EvaluateRule(host, rule, someone) || !EvaluateRule(host, rule, someone);
  }
}
