/**
 What the operators of a condition mean, one value at a time, and what the conditions
 of a rule add up to. Together with `OneMoreValue` this settles every condition.
 */
module OperatorMeaning {
  import opened Common
  import opened TargetingRules

  predicate Holds(host: Host, operator: string, attribute: string, v: string, user: User) {
    EvaluateCondition(host, Condition(attribute, operator, [v]), user)
  }

  /** What the user has under an attribute; nothing reads as the empty string. */
  function ValueOf(user: User, attribute: string): Value {
    if attribute in user then user[attribute] else Text("")
  }

  predicate Reads(user: User, attribute: string, text: string) {
    ValueOf(user, attribute).text == text
  }

  // ---------------------------------------------------------------------------
  // Numbers
  // ---------------------------------------------------------------------------

  /** Numbers are in order, with the infinities at the ends and NaN nowhere. */
  lemma {:induction false} LessIsOrder(a: Number, b: Number, d: Number)
    ensures a.Finite? && b.Finite? ==> (Less(a, b) <==> a.value < b.value)
    ensures Less(a, b) && Less(b, d) ==> Less(a, d)
    ensures !Less(a, a) && (a != b && a != NaN && b != NaN <==> Less(a, b) || Less(b, a))
    ensures !Less(a, NegInfinity) && !Less(PosInfinity, a)
  {
  }

  /** The orders compare the user's number with the value, in this direction; what is no number fails them all. */
  lemma {:induction false} OrdersMean(host: Host, attribute: string, v: string, user: User, text: string)
    requires Reads(user, attribute, text)
    ensures var x, y := host.parseFloat(text), host.parseFloat(v);
            && (Holds(host, "gt", attribute, v, user) <==> Less(y, x))
            && (Holds(host, "lt", attribute, v, user) <==> Less(x, y))
            && (Holds(host, "gte", attribute, v, user) <==> x != NaN && y != NaN && !Less(x, y))
            && (Holds(host, "lte", attribute, v, user) <==> x != NaN && y != NaN && !Less(y, x))
  {
    assert v in [v];
  }

  lemma {:induction false} FiniteOrders(host: Host, attribute: string, v: string, user: User, text: string)
    requires Reads(user, attribute, text) && host.parseFloat(text).Finite? && host.parseFloat(v).Finite?
    ensures var x, y := host.parseFloat(text).value, host.parseFloat(v).value;
            && (Holds(host, "gt", attribute, v, user) <==> x > y)
            && (Holds(host, "lt", attribute, v, user) <==> x < y)
            && (Holds(host, "gte", attribute, v, user) <==> x >= y)
            && (Holds(host, "lte", attribute, v, user) <==> x <= y)
  {
    OrdersMean(host, attribute, v, user, text);
  }

  /** With any values, a user with a larger number keeps "gt" and "gte", and one with a smaller "lt" and "lte". */
  lemma {:induction false} OrdersMonotone(host: Host, c: Condition, user: User, other: User, t: string, t': string)
    requires Reads(user, c.attribute, t) && Reads(other, c.attribute, t')
    requires EvaluateCondition(host, c, user)
    ensures (c.operator == "gt" || c.operator == "gte") && Less(host.parseFloat(t), host.parseFloat(t')) ==>
              EvaluateCondition(host, c, other)
    ensures (c.operator == "lt" || c.operator == "lte") && Less(host.parseFloat(t'), host.parseFloat(t)) ==>
              EvaluateCondition(host, c, other)
  {
  }

  // ---------------------------------------------------------------------------
  // Texts
  // ---------------------------------------------------------------------------

  /** "eq" and "neq" compare; "startsWith", "endsWith" and "contains" ask for the value somewhere in the text. */
  lemma {:induction false} TextsMean(host: Host, attribute: string, v: string, user: User, text: string)
    requires Reads(user, attribute, text)
    ensures Holds(host, "eq", attribute, v, user) <==> text == v
    ensures Holds(host, "neq", attribute, v, user) <==> text != v
    ensures Holds(host, "startsWith", attribute, v, user) <==> exists rest: string :: text == v + rest
    ensures Holds(host, "endsWith", attribute, v, user) <==> exists front: string :: text == front + v
    ensures Holds(host, "contains", attribute, v, user) <==>
              exists front: string, rest: string :: text == front + v + rest
  {
    assert v in [v];
    StartsMean(text, v);
    EndsMean(text, v);
    IncludesMean(text, v);
  }

  lemma {:induction false} StartsMean(text: string, v: string)
    ensures v <= text <==> exists rest: string :: text == v + rest
  {
    if v <= text {
      assert text == v + text[|v|..];
    }
  }

  lemma {:induction false} EndsMean(text: string, v: string)
    ensures EndsWith(text, v) <==> exists front: string :: text == front + v
  {
    if EndsWith(text, v) {
      assert text == text[..|text| - |v|] + v;
    }
    if front :| text == front + v {
      assert text[|text| - |v|..] == v;
    }
  }

  lemma {:induction false} IncludesMean(text: string, v: string)
    ensures Includes(text, v) <==> exists front: string, rest: string :: text == front + v + rest
  {
    if i :| 0 <= i <= |text| - |v| && text[i..][..|v|] == v {
      assert text == text[..i] + text[i..][..|v|] + text[i + |v|..];
    }
    if front: string, rest: string :| text == front + v + rest {
      assert text[|front|..][..|v|] == v;
    }
  }

  // ---------------------------------------------------------------------------
  // Lists, patterns and presence
  // ---------------------------------------------------------------------------

  function JoinWith(parts: seq<string>, sep: char): string {
    if parts == [] then ""
    else if |parts| == 1 then parts[0]
    else parts[0] + [sep] + JoinWith(parts[1..], sep)
  }

  ghost predicate Without(parts: seq<string>, sep: char) {
    forall i :: 0 <= i < |parts| ==> sep !in parts[i]
  }

  lemma {:induction false} SplitJoins(s: string, sep: char)
    ensures Split(s, sep) != [] && Without(Split(s, sep), sep) && JoinWith(Split(s, sep), sep) == s
  {
    if s != "" {
      var rest, parts := Split(s[1..], sep), Split(s, sep);
      SplitJoins(s[1..], sep);
      if s[0] == sep {
        assert parts[1..] == rest;
        assert s == "" + [sep] + s[1..];
      } else {
        assert parts == [[s[0]] + rest[0]] + rest[1..];
        assert parts[1..] == rest[1..];
        assert s == [s[0]] + s[1..];
        if |rest| > 1 {
          assert [s[0]] + (rest[0] + [sep] + JoinWith(rest[1..], sep))
              == ([s[0]] + rest[0]) + [sep] + JoinWith(rest[1..], sep);
        }
      }
    }
  }

  lemma {:induction false} SplitHead(head: string, rest: string, sep: char)
    requires sep !in head
    ensures Split(head + [sep] + rest, sep) == [head] + Split(rest, sep)
    ensures Split(head, sep) == [head]
  {
    if head == "" {
      assert head + [sep] + rest == [sep] + rest;
      assert ([sep] + rest)[1..] == rest;
    } else {
      var s := head + [sep] + rest;
      SplitHead(head[1..], rest, sep);
      assert s[1..] == head[1..] + [sep] + rest && s[0] == head[0];
      assert head == [head[0]] + head[1..];
      assert ([head[1..]] + Split(rest, sep))[1..] == Split(rest, sep);
    }
  }

  /** A list is split into the one sequence of parts without separators that gives it back when joined. */
  lemma {:induction false} SplitExact(s: string, sep: char, parts: seq<string>)
    ensures parts == Split(s, sep) <==> parts != [] && Without(parts, sep) && JoinWith(parts, sep) == s
  {
    SplitJoins(s, sep);
    if parts != [] && Without(parts, sep) && JoinWith(parts, sep) == s {
      SplitOfJoin(parts, sep);
    }
  }

  lemma {:induction false} SplitOfJoin(parts: seq<string>, sep: char)
    requires parts != [] && Without(parts, sep)
    ensures Split(JoinWith(parts, sep), sep) == parts
  {
    assert sep !in parts[0];
    if |parts| == 1 {
      SplitHead(parts[0], "", sep);
    } else {
      assert Without(parts[1..], sep) by {
        assert forall i :: 0 <= i < |parts| - 1 ==> parts[1..][i] == parts[i + 1];
      }
      SplitOfJoin(parts[1..], sep);
      SplitHead(parts[0], JoinWith(parts[1..], sep), sep);
      assert parts == [parts[0]] + parts[1..];
    }
  }

  /** "in" asks for the text among the trimmed parts of the value, cut at commas; "notIn" and "not_in" deny it. */
  lemma {:induction false} ListsMean(host: Host, attribute: string, v: string, user: User, text: string)
    requires Reads(user, attribute, text)
    ensures Holds(host, "in", attribute, v, user) <==> exists p :: p in Split(v, ',') && text == host.trim(p)
    ensures Holds(host, "notIn", attribute, v, user) <==> !Holds(host, "in", attribute, v, user)
    ensures Holds(host, "not_in", attribute, v, user) <==> !Holds(host, "in", attribute, v, user)
  {
    var parts := Split(v, ',');
    var trimmed := seq(|parts|, i requires 0 <= i < |parts| => host.trim(parts[i]));
    assert [v][1..] == [];
    assert Listed(host, [v]) == trimmed;
    if p :| p in parts && text == host.trim(p) {
      var i :| 0 <= i < |parts| && parts[i] == p;
      assert trimmed[i] == text;
    }
    if text in trimmed {
      var i :| 0 <= i < |trimmed| && trimmed[i] == text;
      assert parts[i] in parts;
    }
  }

  /** "regex" asks for a pattern that compiles and is found in the text. */
  lemma {:induction false} PatternsMean(host: Host, attribute: string, v: string, user: User, text: string)
    requires Reads(user, attribute, text)
    ensures Holds(host, "regex", attribute, v, user) <==> host.test(v, text) == Some(true)
  {
    assert [v][1..] == [];
    assert SomePatternMatches(host, [v], text) <==> host.test(v, text) == Some(true);
  }

  /** "exists" asks for any value of the attribute but the empty string, whatever values the condition has. */
  lemma {:induction false} ExistsMeans(host: Host, c: Condition, user: User)
    requires c.operator == "exists"
    ensures c.attribute !in user ==> !EvaluateCondition(host, c, user)
    ensures forall text :: c.attribute in user && user[c.attribute] == Rendered(text) ==>
              EvaluateCondition(host, c, user)
    ensures forall text :: c.attribute in user && user[c.attribute] == Text(text) ==>
              (EvaluateCondition(host, c, user) <==> text != "")
  {
  }

  const OPERATORS := {"eq", "neq", "contains", "startsWith", "endsWith", "in", "notIn", "not_in",
                      "gt", "gte", "lt", "lte", "regex", "exists"}

  /** Any other operator never holds. */
  lemma {:induction false} UnknownOperator(host: Host, c: Condition, user: User)
    requires c.operator !in OPERATORS
    ensures !EvaluateCondition(host, c, user)
  {
  }

  /** A condition looks at its own attribute only, and a missing one is like an empty string. */
  lemma {:induction false} OnlyItsAttribute(host: Host, c: Condition, user: User, other: User)
    requires ValueOf(user, c.attribute) == ValueOf(other, c.attribute)
    ensures EvaluateCondition(host, c, user) == EvaluateCondition(host, c, other)
  {
  }

  /**
   A condition is taken to be impossible exactly when it has no values and then answers
   alike for all users; without values only "exists" still looks at the user.
   */
  lemma {:induction false} ValuelessIff(host: Host, c: Condition)
    ensures Valueless(c) <==>
              c.values == [] && forall user: User, other: User ::
                EvaluateCondition(host, c, user) == EvaluateCondition(host, c, other)
  {
    if Valueless(c) {
      forall user: User, other: User ensures EvaluateCondition(host, c, user) == EvaluateCondition(host, c, other) {
        ValuelessMeaning(host, c, user);
        ValuelessMeaning(host, c, other);
      }
    } else if c.values == [] {
      var user: User, other: User := map[c.attribute := Text("x")], map[];
      assert EvaluateCondition(host, c, user) && !EvaluateCondition(host, c, other);
    }
  }

  // ---------------------------------------------------------------------------
  // Rules
  // ---------------------------------------------------------------------------

  predicate Matches(host: Host, rule: Rule, cs: seq<Condition>, user: User) {
    EvaluateRule(host, rule.(conditions := cs), user)
  }

  /**
   A rule without conditions matches everyone if its percentage is positive, one with a
   single condition matches by it, and two lists of conditions put together ask for
   both, or with the match type "any" for either.
   */
  lemma {:induction false} ConditionsCombine(host: Host, rule: Rule, a: seq<Condition>, b: seq<Condition>, user: User)
    ensures Matches(host, rule, [], user) <==> rule.percentage > 0.0
    ensures |a| == 1 ==> (Matches(host, rule, a, user) <==> EvaluateCondition(host, a[0], user))
    ensures a != [] && b != [] ==>
              (Matches(host, rule, a + b, user) <==>
                 if rule.matchType == "any" then Matches(host, rule, a, user) || Matches(host, rule, b, user)
                 else Matches(host, rule, a, user) && Matches(host, rule, b, user))
  {
    var all := a + b;
    assert forall i :: 0 <= i < |a| ==> all[i] == a[i];
    assert forall i :: 0 <= i < |b| ==> all[|a| + i] == b[i];
    forall i | 0 <= i < |b| ensures EvaluateCondition(host, all[|a| + i], user) == EvaluateCondition(host, b[i], user) {
    }
    if a != [] && b != [] && rule.matchType != "any" && Matches(host, rule, all, user) {
      forall i | 0 <= i < |b| ensures EvaluateCondition(host, b[i], user) {
        assert EvaluateCondition(host, all[|a| + i], user);
      }
    }
    if a != [] && b != [] && rule.matchType == "any" && Matches(host, rule, b, user) {
      var i :| 0 <= i < |b| && EvaluateCondition(host, b[i], user);
      assert EvaluateCondition(host, all[|a| + i], user);
    }
  }
}
