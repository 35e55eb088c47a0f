// Module policy: dotted names, rules that cover a module and its submodules, and
// deny rules that win over allow rules.
module Policy {
  import opened Wrappers

  datatype Action = Allow | Deny

  datatype Policy = Policy(default: Action, allow: seq<string>, deny: seq<string>)

  // `prefix` followed by a dot.
  predicate StartsBelow(name: string, prefix: string) {
    prefix <= name && |prefix| < |name| && name[|prefix|] == '.'
  }

  predicate IsWildcard(rule: string) {
    |rule| >= 2 && rule[|rule| - 2..] == ".*"
  }

  predicate MatchesRule(name: string, rule: string) {
    if IsWildcard(rule) then StartsBelow(name, rule[..|rule| - 2])
    else name == rule || StartsBelow(name, rule)
  }

  predicate AnyMatches(name: string, rules: seq<string>) {
    exists rule <- rules :: MatchesRule(name, rule)
  }

  predicate Accepts(p: Policy, name: string) {
    !AnyMatches(name, p.deny) && (AnyMatches(name, p.allow) || p.default == Allow)
  }

  // Deny rules first, then allow rules, then the default.
  method Check(p: Policy, name: string) returns (ok: bool)
    ensures ok == Accepts(p, name)
  {
    for i := 0 to |p.deny|
      invariant forall k | 0 <= k < i :: !MatchesRule(name, p.deny[k])
    {
      if MatchesRule(name, p.deny[i]) {
        return false;
      }
    }
    for i := 0 to |p.allow|
      invariant forall k | 0 <= k < i :: !MatchesRule(name, p.allow[k])
    {
      if MatchesRule(name, p.allow[i]) {
        return true;
      }
    }
    return p.default == Allow;
  }

  // ---- Creation ----

  predicate LexLeq(a: string, b: string) {
    a == [] || (b != [] && (a[0] < b[0] || (a[0] == b[0] && LexLeq(a[1..], b[1..]))))
  }

  function Inserted(s: seq<string>, x: string): (r: seq<string>)
    ensures multiset(r) == multiset(s) + multiset{x}
  {
    if s == [] || LexLeq(x, s[0]) then [x] + s
    else
      assert s == [s[0]] + s[1..];
      [s[0]] + Inserted(s[1..], x)
  }

  function Sorted(s: seq<string>): (r: seq<string>)
    ensures multiset(r) == multiset(s)
  {
    if s == [] then []
    else
      assert s == [s[0]] + s[1..];
      Inserted(Sorted(s[1..]), s[0])
  }

  function Create(action: string, allow: seq<string>, deny: seq<string>): Option<Policy> {
    if action == "allow" then Some(Policy(Allow, Sorted(allow), Sorted(deny)))
    else if action == "deny" then Some(Policy(Deny, Sorted(allow), Sorted(deny)))
    else None
  }

  // ---- Rules are component prefixes ----

  // The parts of a name between its dots.
  function Components(name: string): (parts: seq<string>)
    ensures parts != []
  {
    if name == [] then [[]]
    else
      var rest := Components(name[1..]);
      if name[0] == '.' then [[]] + rest else [[name[0]] + rest[0]] + rest[1..]
  }

  lemma FirstComponent(name: string)
    ensures Components(name)[0] == [] <==> name == [] || name[0] == '.'
    ensures Components(name)[0] != [] ==> Components(name)[0][0] == name[0]
    ensures |Components(name)| == 1 <== name == []
    ensures name != [] && name[0] == '.' ==> |Components(name)| > 1
  {
  }

  lemma {:induction false} PrefixOfComponents(rule: string, name: string)
    ensures Components(rule) <= Components(name) <==> name == rule || StartsBelow(name, rule)
  {
    if rule == [] {
      assert Components(rule) == [[]];
    } else if name != [] && rule[0] == name[0] {
      PrefixOfComponents(rule[1..], name[1..]);
      TailsCompare(rule, name);
      if rule[0] == '.' {
        ConsPrefix([], Components(rule[1..]), Components(name[1..]));
      } else {
        HeadPrefix(rule[0], Components(rule[1..]), Components(name[1..]));
      }
    } else {
      FirstComponent(rule);
      FirstComponent(name);
    }
  }

  lemma TailsCompare(rule: string, name: string)
    requires rule != [] && name != [] && rule[0] == name[0]
    ensures (name == rule || StartsBelow(name, rule)) <==> (name[1..] == rule[1..] || StartsBelow(name[1..], rule[1..]))
  {
    assert name == [name[0]] + name[1..] && rule == [rule[0]] + rule[1..];
    assert rule <= name <==> rule[1..] <= name[1..];
  }

  lemma ConsPrefix(x: string, a: seq<string>, b: seq<string>)
    ensures [x] + a <= [x] + b <==> a <= b
  {
    assert ([x] + a)[1..] == a && ([x] + b)[1..] == b;
  }

  lemma HeadPrefix(c: char, a: seq<string>, b: seq<string>)
    requires a != [] && b != []
    ensures [[c] + a[0]] + a[1..] <= [[c] + b[0]] + b[1..] <==> a <= b
  {
    var x, y := [[c] + a[0]] + a[1..], [[c] + b[0]] + b[1..];
    assert [c] + a[0] == [c] + b[0] <==> a[0] == b[0] by {
      assert ([c] + a[0])[1..] == a[0] && ([c] + b[0])[1..] == b[0];
    }
    assert x[1..] == a[1..] && y[1..] == b[1..];
    assert a == [a[0]] + a[1..] && b == [b[0]] + b[1..];
    assert x <= y <==> x[0] == y[0] && x[1..] <= y[1..];
    assert a <= b <==> a[0] == b[0] && a[1..] <= b[1..];
  }

  // A plain rule covers the modules whose components start with its own; a
  // wildcard rule those that have more besides.
  lemma RuleIsComponentPrefix(name: string, rule: string)
    ensures !IsWildcard(rule) ==> (MatchesRule(name, rule) <==> Components(rule) <= Components(name))
    ensures IsWildcard(rule) ==> (MatchesRule(name, rule) <==> Components(rule[..|rule| - 2]) < Components(name))
  {
    if IsWildcard(rule) {
      var prefix := rule[..|rule| - 2];
      PrefixOfComponents(prefix, name);
      PrefixOfComponents(name, prefix);
    } else {
      PrefixOfComponents(rule, name);
    }
  }

  // The components, with dots between them, make the name, and have no dot in them.
  function Dotted(parts: seq<string>): string {
    if parts == [] then []
    else if |parts| == 1 then parts[0]
    else parts[0] + "." + Dotted(parts[1..])
  }

  lemma {:induction false} ComponentsMakeTheName(name: string)
    ensures Dotted(Components(name)) == name
    ensures forall part <- Components(name) :: '.' !in part
  {
    if name != [] {
      ComponentsMakeTheName(name[1..]);
      var rest := Components(name[1..]);
      if name[0] == '.' {
        assert ([[]] + rest)[1..] == rest;
      } else {
        var first := [[name[0]] + rest[0]] + rest[1..];
        assert first[1..] == rest[1..];
        ConsDotted(name[0], rest);
      }
    }
  }

  lemma ConsDotted(c: char, rest: seq<string>)
    requires rest != []
    ensures Dotted([[c] + rest[0]] + rest[1..]) == [c] + Dotted(rest)
  {
    var first := [[c] + rest[0]] + rest[1..];
    assert first[1..] == rest[1..];
    if |rest| > 1 {
      assert ([c] + rest[0]) + "." + Dotted(rest[1..]) == [c] + (rest[0] + "." + Dotted(rest[1..]));
    }
  }

  // A rule that ends in ".*" covers what has more components than the rest of it,
  // any other rule what has its components at least.
  ghost predicate Covers(rule: string, name: string) {
    || (exists prefix :: rule == prefix + ".*" && Components(prefix) < Components(name))
    || ((forall prefix :: rule != prefix + ".*") && Components(rule) <= Components(name))
  }

  lemma MatchesWhatItCovers(name: string, rule: string)
    ensures MatchesRule(name, rule) <==> Covers(rule, name)
  {
    RuleIsComponentPrefix(name, rule);
    if IsWildcard(rule) {
      var rest := rule[..|rule| - 2];
      assert rule == rest + ".*";
      forall other | rule == other + ".*" ensures other == rest {
        assert other == rule[..|other|];
      }
    } else {
      forall other ensures rule != other + ".*" {
        assert (other + ".*")[|other|..] == ".*";
      }
    }
  }

  // A policy accepts a module when no deny rule covers it, and an allow rule does or
  // the default is to allow.
  lemma AcceptsByComponents(p: Policy, name: string)
    ensures Accepts(p, name) <==>
            && (forall rule <- p.deny :: !Covers(rule, name))
            && ((exists rule <- p.allow :: Covers(rule, name)) || p.default == Allow)
  {
    forall rule: string ensures MatchesRule(name, rule) <==> Covers(rule, name) {
      MatchesWhatItCovers(name, rule);
    }
  }

  // ---- Sorting ----

  lemma {:induction false} LexTotal(a: string, b: string)
    ensures LexLeq(a, b) || LexLeq(b, a)
    ensures LexLeq(a, b) && LexLeq(b, a) ==> a == b
  {
    if a != [] && b != [] && a[0] == b[0] {
      LexTotal(a[1..], b[1..]);
      assert a == [a[0]] + a[1..] && b == [b[0]] + b[1..];
    }
  }

  predicate InOrder(s: seq<string>) {
    forall i | 0 < i < |s| :: LexLeq(s[i - 1], s[i])
  }

  lemma {:induction false} InsertedInOrder(s: seq<string>, x: string)
    requires InOrder(s)
    ensures InOrder(Inserted(s, x))
    ensures Inserted(s, x)[0] == x || (s != [] && Inserted(s, x)[0] == s[0])
  {
    if s != [] && !LexLeq(x, s[0]) {
      LexTotal(x, s[0]);
      InsertedInOrder(s[1..], x);
    }
  }

  lemma {:induction false} SortedInOrder(s: seq<string>)
    ensures InOrder(Sorted(s))
  {
    if s != [] {
      SortedInOrder(s[1..]);
      InsertedInOrder(Sorted(s[1..]), s[0]);
    }
  }

  // ---- What policies promise ----

  lemma SubmodulesAreCovered(name: string, sub: string, rule: string)
    requires MatchesRule(name, rule) && Components(name) <= Components(sub)
    ensures MatchesRule(sub, rule)
  {
    RuleIsComponentPrefix(name, rule);
    RuleIsComponentPrefix(sub, rule);
  }

  // A refused module has no accepted submodule, unless the refusal came from the
  // default.
  lemma DeniedSubmodules(p: Policy, name: string, sub: string)
    requires AnyMatches(name, p.deny) && Components(name) <= Components(sub)
    ensures !Accepts(p, sub)
  {
    var rule :| rule in p.deny && MatchesRule(name, rule);
    SubmodulesAreCovered(name, sub, rule);
  }

  lemma SameRulesSameAnswers(a: seq<string>, b: seq<string>, name: string)
    requires multiset(a) == multiset(b)
    ensures AnyMatches(name, a) == AnyMatches(name, b)
  {
    assert forall r :: r in a <==> r in multiset(a);
    assert forall r :: r in b <==> r in multiset(b);
  }

  // The answers depend on which rules there are, not on their order; in
  // particular sorting them at creation changes none.
  lemma OrderDoesNotMatter(p: Policy, q: Policy, name: string)
    requires p.default == q.default && multiset(p.allow) == multiset(q.allow) && multiset(p.deny) == multiset(q.deny)
    ensures Accepts(p, name) == Accepts(q, name)
  {
    SameRulesSameAnswers(p.allow, q.allow, name);
    SameRulesSameAnswers(p.deny, q.deny, name);
  }

  lemma CreatedPolicyAnswersAlike(action: string, allow: seq<string>, deny: seq<string>, name: string)
    ensures Create(action, allow, deny).Some? <==> action in {"allow", "deny"}
    ensures Create(action, allow, deny).Some? ==>
              (Accepts(Create(action, allow, deny).value, name) <==>
               !AnyMatches(name, deny) && (AnyMatches(name, allow) || action == "allow"))
  {
    SameRulesSameAnswers(Sorted(allow), allow, name);
    SameRulesSameAnswers(Sorted(deny), deny, name);
  }

  // More deny rules accept no more, more allow rules accept no less.
  lemma RulesAreMonotone(p: Policy, rules: seq<string>, name: string)
    ensures Accepts(p.(deny := p.deny + rules), name) ==> Accepts(p, name)
    ensures Accepts(p, name) ==> Accepts(p.(allow := p.allow + rules), name)
  {
    assert forall r <- p.deny :: r in p.deny + rules;
    assert forall r <- p.allow :: r in p.allow + rules;
  }
}
