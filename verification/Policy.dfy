/** Policies and the decider that evaluates them. */
module Policies {
  import opened Wrappers
  import opened Encoding
  import opened Limits
  import opened Paths

  const MAX_NAME_LEN := 128
  const MAX_RULES := 256
  const STAR: byte := 42

  datatype Capability = Read | Write | List | Delete | Destroy | Deny | Unknown(name: Text) {
    predicate Valid() { !Unknown? }

    predicate Grantable() { Valid() && !Deny? }
  }

  datatype Rule = Rule(path: Text, capabilities: seq<Capability>)

  datatype Policy = Policy(name: Text, rules: seq<Rule>)

  datatype PolicyError =
    | EmptyName | LongName | NoRules | TooManyRules | DuplicatePath | EmptyPattern | LongPattern | BadPattern
    | Traversal | NoCapabilities | BadCapability | DenyWithGrant

  // ---- validation ----

  function Count(s: Text, b: byte): nat {
    if s == [] then 0 else (if s[0] == b then 1 else 0) + Count(s[1..], b)
  }

  predicate Wild(pattern: Text) { pattern != [] && pattern[|pattern| - 1] == STAR }

  // The pattern without its trailing wildcard.
  function Stem(pattern: Text): Text { if Wild(pattern) then pattern[..|pattern| - 1] else pattern }

  lemma {:induction false} CountZero(s: Text, b: byte)
    ensures Count(s, b) == 0 <==> b !in s
  {
    if s != [] {
      CountZero(s[1..], b);
    }
  }

  lemma {:induction false} CountAppend(s: Text, t: Text, b: byte)
    ensures Count(s + t, b) == Count(s, b) + Count(t, b)
  {
    if s == [] {
      assert s + t == t;
    } else {
      assert (s + t)[1..] == s[1..] + t;
      CountAppend(s[1..], t, b);
    }
  }

  // The two checks together leave exactly the patterns whose stem has no wildcard.
  lemma OnlyTrailingWildcard(pattern: Text)
    ensures Count(pattern, STAR) > 1 || (STAR in pattern && !Wild(pattern)) <==> STAR in Stem(pattern)
  {
    CountZero(pattern, STAR);
    CountZero(Stem(pattern), STAR);
    if Wild(pattern) {
      assert pattern == Stem(pattern) + [STAR];
      CountAppend(Stem(pattern), [STAR], STAR);
    }
  }

  function PatternFault(rule: Rule): Option<PolicyError> {
    if rule.path == [] then Some(EmptyPattern)
    else if |rule.path| > MAX_PATH_LEN then Some(LongPattern)
    else if STAR in Stem(rule.path) then Some(BadPattern)
    else if !SafeSegments(Stem(rule.path)) then Some(Traversal)
    else if rule.capabilities == [] then Some(NoCapabilities)
    else None
  }

  predicate MoreThanDeny(capabilities: seq<Capability>) { exists c :: c in capabilities && c != Deny }

  lemma MoreThanDenyAppend(capabilities: seq<Capability>, c: Capability)
    ensures MoreThanDeny(capabilities + [c]) <==> MoreThanDeny(capabilities) || c != Deny
  {
    assert c in capabilities + [c];
    if MoreThanDeny(capabilities) {
      var g :| g in capabilities && g != Deny;
      assert g in capabilities + [c];
    }
  }

  // A rule either denies or grants, and names only capabilities that exist.
  function RuleFault(rule: Rule): Option<PolicyError> {
    if PatternFault(rule).Some? then PatternFault(rule)
    else if exists c :: c in rule.capabilities && !c.Valid() then Some(BadCapability)
    else if Deny in rule.capabilities && MoreThanDeny(rule.capabilities) then Some(DenyWithGrant)
    else None
  }

  method ValidateRule(rule: Rule) returns (fault: Option<PolicyError>)
    ensures fault == RuleFault(rule)
  {
    hide SafeSegments;
    var pattern := rule.path;
    OnlyTrailingWildcard(pattern);
    if pattern == [] {
      return Some(EmptyPattern);
    } else if |pattern| > MAX_PATH_LEN {
      return Some(LongPattern);
    } else if Count(pattern, STAR) > 1 {
      return Some(BadPattern);
    } else if STAR in pattern && !Wild(pattern) {
      return Some(BadPattern);
    } else if !SafeSegments(Stem(pattern)) {
      return Some(Traversal);
    } else if rule.capabilities == [] {
      return Some(NoCapabilities);
    }

    var denies, grantsSomething := false, false;
    for i := 0 to |rule.capabilities|
      invariant forall j :: 0 <= j < i ==> rule.capabilities[j].Valid()
      invariant denies <==> Deny in rule.capabilities[..i]
      invariant grantsSomething <==> MoreThanDeny(rule.capabilities[..i])
    {
      var capability := rule.capabilities[i];
      assert rule.capabilities[..i + 1] == rule.capabilities[..i] + [capability];
      MoreThanDenyAppend(rule.capabilities[..i], capability);
      if !capability.Valid() {
        return Some(BadCapability);
      }
      if capability == Deny {
        denies := true;
      } else {
        grantsSomething := true;
      }
    }
    assert rule.capabilities[..|rule.capabilities|] == rule.capabilities;
    fault := if denies && grantsSomething then Some(DenyWithGrant) else None;
  }

  function NameFault(name: Text, rules: seq<Rule>): Option<PolicyError> {
    if name == [] then Some(EmptyName)
    else if |name| > MAX_NAME_LEN then Some(LongName)
    else if rules == [] then Some(NoRules)
    else if |rules| > MAX_RULES then Some(TooManyRules)
    else None
  }

  predicate Distinct(rules: seq<Rule>) {
    forall i, j :: 0 <= i < j < |rules| ==> rules[i].path != rules[j].path
  }

  predicate Acceptable(rules: seq<Rule>) {
    (forall i :: 0 <= i < |rules| ==> RuleFault(rules[i]).None?) && Distinct(rules)
  }

  predicate WellFormed(p: Policy) { NameFault(p.name, p.rules).None? && Acceptable(p.rules) }

  // Rule i is the first that cannot follow those before it.
  ghost predicate FirstBad(rules: seq<Rule>, i: nat, error: PolicyError) {
    && i < |rules| && Acceptable(rules[..i])
    && (RuleFault(rules[i]) == Some(error)
        || (RuleFault(rules[i]).None? && error == DuplicatePath
            && exists j :: 0 <= j < i && rules[j].path == rules[i].path))
  }

  // The Go constructor of a policy.
  method New(name: Text, rules: seq<Rule>) returns (r: Result<Policy, PolicyError>)
    ensures r.Success? <==> WellFormed(Policy(name, rules))
    ensures r.Success? ==> r.value == Policy(name, rules)
    ensures r.Failure? ==> NameFault(name, rules) == Some(r.error) || exists i :: FirstBad(rules, i, r.error)
  {
    hide RuleFault;
    if name == [] {
      return Failure(EmptyName);
    } else if |name| > MAX_NAME_LEN {
      return Failure(LongName);
    } else if rules == [] {
      return Failure(NoRules);
    } else if |rules| > MAX_RULES {
      return Failure(TooManyRules);
    }

    var seen: set<Text> := {};
    for i := 0 to |rules|
      invariant seen == set j | 0 <= j < i :: rules[j].path
      invariant Acceptable(rules[..i])
    {
      var rule := rules[i];
      assert rules[..i + 1] == rules[..i] + [rule];
      var fault := ValidateRule(rule);
      if fault.Some? {
        assert FirstBad(rules, i, fault.value);
        return Failure(fault.value);
      }
      if rule.path in seen {
        assert FirstBad(rules, i, DuplicatePath);
        return Failure(DuplicatePath);
      }
      seen := seen + {rule.path};
    }
    assert rules[..|rules|] == rules;
    return Success(Policy(name, rules));
  }

  // ---- matching ----

  predicate Matches(pattern: Text, path: Text) {
    if Wild(pattern) then HasPrefix(path, Stem(pattern)) else pattern == path
  }

  predicate Grants(rule: Rule, requested: Capability) { requested in rule.capabilities }

  predicate ValidPath(path: Text) { path != [] && |path| <= MAX_PATH_LEN && SafeSegments(path) }

  datatype Candidate = Candidate(policy: Text, rule: Rule) {
    predicate Exact() { !Wild(rule.path) }

    function Reach(): nat { |Stem(rule.path)| }

    predicate Beats(other: Candidate) {
      if Exact() != other.Exact() then Exact()
      else if Reach() != other.Reach() then Reach() > other.Reach()
      else false
    }
  }

  // Of two patterns that match one path, neither is more specific only when they
  // are the same pattern.
  lemma NoTies(a: Candidate, b: Candidate, path: Text)
    requires Matches(a.rule.path, path) && Matches(b.rule.path, path) && !a.Beats(b) && !b.Beats(a)
    ensures a.rule.path == b.rule.path
  {
    if Wild(a.rule.path) {
      assert a.rule.path == Stem(a.rule.path) + [STAR] && b.rule.path == Stem(b.rule.path) + [STAR];
    }
  }

  // ---- what a set of policies decides ----

  // The rules of a set, in the order they are looked at.
  function Flat(policies: seq<Policy>): seq<Candidate> {
    if policies == [] then [] else Flat(policies[..|policies| - 1]) + Listed(policies[|policies| - 1])
  }

  function Listed(p: Policy): (cs: seq<Candidate>)
    ensures |cs| == |p.rules| && forall i :: 0 <= i < |cs| ==> cs[i] == Candidate(p.name, p.rules[i])
  {
    seq(|p.rules|, i requires 0 <= i < |p.rules| => Candidate(p.name, p.rules[i]))
  }

  predicate MatchAt(cs: seq<Candidate>, path: Text, i: nat) { i < |cs| && Matches(cs[i].rule.path, path) }

  predicate DenyAt(cs: seq<Candidate>, path: Text, i: nat) { MatchAt(cs, path, i) && Grants(cs[i].rule, Deny) }

  ghost predicate AnyDeny(cs: seq<Candidate>, path: Text) { exists i: nat :: DenyAt(cs, path, i) }

  // The most specific matching rule, and of equally specific ones the first.
  ghost predicate BestAt(cs: seq<Candidate>, path: Text, i: nat) {
    && MatchAt(cs, path, i)
    && (forall j: nat :: MatchAt(cs, path, j) ==> !cs[j].Beats(cs[i]))
    && (forall j: nat :: MatchAt(cs, path, j) && j < i ==> cs[i].Beats(cs[j]))
  }

  ghost predicate Decides(cs: seq<Candidate>, path: Text, requested: Capability, i: nat) {
    BestAt(cs, path, i) && Grants(cs[i].rule, requested)
  }

  ghost predicate Allows(cs: seq<Candidate>, path: Text, requested: Capability) {
    requested.Grantable() && ValidPath(path) && !AnyDeny(cs, path) && exists i: nat :: Decides(cs, path, requested, i)
  }

  datatype Reason = CannotGrant | BadPath | DenialWins | NoMatch | NotGranted | Granted | OtherTenant

  datatype Decision = Decision(allowed: bool, policy: Text, rule: Text, reason: Reason)

  ghost predicate FirstDeny(cs: seq<Candidate>, path: Text, i: nat) {
    DenyAt(cs, path, i) && forall j: nat :: MatchAt(cs, path, j) && j < i ==> !DenyAt(cs, path, j)
  }

  // Rule i is the one a decision names.
  ghost predicate Names(cs: seq<Candidate>, path: Text, d: Decision, i: nat) {
    && i < |cs| && d.policy == cs[i].policy && d.rule == cs[i].rule.path
    && (if d.reason == DenialWins then FirstDeny(cs, path, i) else BestAt(cs, path, i))
  }

  ghost predicate Explains(cs: seq<Candidate>, path: Text, requested: Capability, d: Decision) {
    if !requested.Grantable() then d == Decision(false, [], [], CannotGrant)
    else if !ValidPath(path) then d == Decision(false, [], [], BadPath)
    else if AnyDeny(cs, path) then !d.allowed && d.reason == DenialWins && exists i: nat :: Names(cs, path, d, i)
    else if !AnyMatch(cs, path) then d == Decision(false, [], [], NoMatch)
    else
      && d.allowed == Allows(cs, path, requested)
      && d.reason == (if d.allowed then Granted else NotGranted)
      && exists i: nat :: Names(cs, path, d, i)
  }

  ghost predicate AnyMatch(cs: seq<Candidate>, path: Text) { exists i: nat :: MatchAt(cs, path, i) }

  lemma BestUnique(cs: seq<Candidate>, path: Text, i: nat, j: nat)
    requires BestAt(cs, path, i) && BestAt(cs, path, j)
    ensures i == j
  {
    assert MatchAt(cs, path, i) && MatchAt(cs, path, j);
  }

  // The decision is fixed by the rules, the path and the request.
  lemma ExplainedOnce(cs: seq<Candidate>, path: Text, requested: Capability, d: Decision, e: Decision)
    requires Explains(cs, path, requested, d) && Explains(cs, path, requested, e)
    ensures d == e && (d.allowed <==> Allows(cs, path, requested))
  {
    hide ValidPath, Matches;
    if requested.Grantable() && ValidPath(path) && AnyMatch(cs, path) {
      var i :| Names(cs, path, d, i);
      var j :| Names(cs, path, e, j);
      if AnyDeny(cs, path) {
        assert DenyAt(cs, path, i) && DenyAt(cs, path, j) && MatchAt(cs, path, i) && MatchAt(cs, path, j);
      } else {
        BestUnique(cs, path, i, j);
      }
    } else {
      NoMatchNoDeny(cs, path);
    }
  }

  lemma NoMatchNoDeny(cs: seq<Candidate>, path: Text)
    ensures !AnyMatch(cs, path) ==> !AnyDeny(cs, path) && forall i :: !BestAt(cs, path, i)
  {}

  // What the scan knows after the rules of cs.
  ghost predicate Scanned(cs: seq<Candidate>, path: Text, best: Option<Candidate>) {
    && !AnyDeny(cs, path)
    && (best.None? ==> !AnyMatch(cs, path))
    && (best.Some? ==> exists i: nat :: HeldAt(cs, path, best.value, i))
  }

  ghost predicate HeldAt(cs: seq<Candidate>, path: Text, best: Candidate, i: nat) {
    BestAt(cs, path, i) && cs[i] == best
  }

  function Better(best: Option<Candidate>, c: Candidate): Candidate {
    if best.None? || c.Beats(best.value) then c else best.value
  }

  lemma MatchAtExtended(cs: seq<Candidate>, c: Candidate, path: Text, i: nat)
    ensures MatchAt(cs + [c], path, i) <==> MatchAt(cs, path, i) || (i == |cs| && Matches(c.rule.path, path))
    ensures DenyAt(cs + [c], path, i)
      <==> DenyAt(cs, path, i) || (i == |cs| && Matches(c.rule.path, path) && Grants(c.rule, Deny))
  {}

  lemma ScanOneMore(cs: seq<Candidate>, path: Text, best: Option<Candidate>, c: Candidate)
    requires Scanned(cs, path, best)
    ensures !Matches(c.rule.path, path) ==> Scanned(cs + [c], path, best)
    ensures Matches(c.rule.path, path) && !Grants(c.rule, Deny) ==> Scanned(cs + [c], path, Some(Better(best, c)))
    ensures Matches(c.rule.path, path) && Grants(c.rule, Deny) ==> FirstDeny(cs + [c], path, |cs|)
  {
    hide Matches, Grants;
    var more := cs + [c];
    forall i: nat
      ensures MatchAt(more, path, i) <==> MatchAt(cs, path, i) || (i == |cs| && Matches(c.rule.path, path))
      ensures DenyAt(more, path, i)
        <==> DenyAt(cs, path, i) || (i == |cs| && Matches(c.rule.path, path) && Grants(c.rule, Deny))
    {
      MatchAtExtended(cs, c, path, i);
    }
    forall i: nat | i < |cs| ensures DenyAt(cs, path, i) ==> AnyDeny(cs, path) {}
    BestOneMore(cs, path, best, c);
  }

  lemma BestOneMore(cs: seq<Candidate>, path: Text, best: Option<Candidate>, c: Candidate)
    requires Scanned(cs, path, best)
    ensures var next := if !Matches(c.rule.path, path) then best else Some(Better(best, c));
      (next.None? ==> !AnyMatch(cs + [c], path)) && (next.Some? ==> exists i: nat :: HeldAt(cs + [c], path, next.value, i))
  {
    hide Matches, AnyDeny;
    var more := cs + [c];
    forall i: nat
      ensures MatchAt(more, path, i) <==> MatchAt(cs, path, i) || (i == |cs| && Matches(c.rule.path, path))
    {
      MatchAtExtended(cs, c, path, i);
    }
    if best.Some? {
      var i :| HeldAt(cs, path, best.value, i);
      if Matches(c.rule.path, path) && c.Beats(best.value) {
        assert HeldAt(more, path, c, |cs|);
      } else {
        assert HeldAt(more, path, best.value, i);
      }
    } else if Matches(c.rule.path, path) {
      assert HeldAt(more, path, c, |cs|);
    }
  }

  method Evaluate(policies: seq<Policy>, path: Text, requested: Capability) returns (d: Decision)
    ensures Explains(Flat(policies), path, requested, d)
  {
    hide SafeSegments, Matches, Grants, Flat, BestAt, AnyDeny, AnyMatch, FirstDeny, Scanned, Listed;
    if !requested.Grantable() {
      return Decision(false, [], [], CannotGrant);
    }
    if !ValidPath(path) {
      return Decision(false, [], [], BadPath);
    }

    var best: Option<Candidate> := None;
    ghost var seen: seq<Candidate> := [];
    NothingScanned(path);
    for i := 0 to |policies|
      invariant seen == Flat(policies[..i]) && Scanned(seen, path, best)
    {
      var policy := policies[i];
      FlatOneMore(policies, i);
      ghost var before := seen;
      assert seen == before + Listed(policy)[..0];
      for k := 0 to |policy.rules|
        invariant seen == before + Listed(policy)[..k] && Scanned(seen, path, best)
      {
        var rule := policy.rules[k];
        var current := Candidate(policy.name, rule);
        assert Listed(policy)[..k + 1] == Listed(policy)[..k] + [current];
        ScanOneMore(seen, path, best, current);
        assert before + Listed(policy)[..k + 1] == seen + [current];
        if Matches(rule.path, path) {
          if Grants(rule, Deny) {
            d := Decision(false, policy.name, rule.path, DenialWins);
            FlatExtends(policies, i, k);
            DeniedIsExplained(Flat(policies), seen + [current], path, requested, d);
            return;
          }
          best := Some(Better(best, current));
        }
        seen := seen + [current];
      }
      assert Listed(policy)[..|policy.rules|] == Listed(policy);
    }
    assert policies[..|policies|] == policies;

    if best.None? {
      d := Decision(false, [], [], NoMatch);
    } else if !Grants(best.value.rule, requested) {
      d := Decision(false, best.value.policy, best.value.rule.path, NotGranted);
    } else {
      d := Decision(true, best.value.policy, best.value.rule.path, Granted);
    }
    ScanIsExplained(seen, path, requested, best, d);
  }

  lemma NothingScanned(path: Text)
    ensures Scanned([], path, None) && Flat([]) == []
  {}

  lemma FlatOneMore(policies: seq<Policy>, i: nat)
    requires i < |policies|
    ensures Flat(policies[..i + 1]) == Flat(policies[..i]) + Listed(policies[i])
  {
    assert policies[..i + 1][..i] == policies[..i];
  }

  lemma {:induction false} FlatPrefix(policies: seq<Policy>, i: nat)
    requires i <= |policies|
    ensures Flat(policies[..i]) <= Flat(policies)
    decreases |policies| - i
  {
    hide Flat;
    if i == |policies| {
      assert policies[..i] == policies;
    } else {
      FlatOneMore(policies, i);
      FlatPrefix(policies, i + 1);
    }
  }

  lemma FlatExtends(policies: seq<Policy>, i: nat, k: nat)
    requires i < |policies| && k < |policies[i].rules|
    ensures Flat(policies[..i]) + Listed(policies[i])[..k + 1] <= Flat(policies)
  {
    hide Flat;
    FlatOneMore(policies, i);
    FlatPrefix(policies, i + 1);
    assert Listed(policies[i])[..k + 1] <= Listed(policies[i]);
  }

  lemma DeniedIsExplained(cs: seq<Candidate>, seen: seq<Candidate>, path: Text, requested: Capability, d: Decision)
    requires seen != [] && seen <= cs && FirstDeny(seen, path, |seen| - 1) && requested.Grantable() && ValidPath(path)
    requires d == Decision(false, seen[|seen| - 1].policy, seen[|seen| - 1].rule.path, DenialWins)
    ensures Explains(cs, path, requested, d)
  {
    hide ValidPath, Matches, Grants;
    var i := |seen| - 1;
    forall j: nat | j <= i ensures MatchAt(cs, path, j) <==> MatchAt(seen, path, j) {}
    assert DenyAt(cs, path, i);
    assert Names(cs, path, d, i);
  }

  lemma ScanIsExplained(cs: seq<Candidate>, path: Text, requested: Capability, best: Option<Candidate>, d: Decision)
    requires Scanned(cs, path, best) && requested.Grantable() && ValidPath(path)
    requires best.None? ==> d == Decision(false, [], [], NoMatch)
    requires best.Some? ==> d.allowed == Grants(best.value.rule, requested)
    requires best.Some? ==>
      d == Decision(d.allowed, best.value.policy, best.value.rule.path, if d.allowed then Granted else NotGranted)
    ensures Explains(cs, path, requested, d)
  {
    hide ValidPath, Matches, Grants, AnyDeny;
    if best.Some? {
      var i :| HeldAt(cs, path, best.value, i);
      assert Names(cs, path, d, i);
      assert d.allowed ==> Decides(cs, path, requested, i);
      forall j | Decides(cs, path, requested, j) ensures j == i {
        BestUnique(cs, path, i, j);
      }
    }
  }

  // ---- what the decision means, pattern by pattern ----

  // The pattern is some p with a wildcard, and the path begins with p.
  predicate Spells(pattern: Text, path: Text, p: Text, rest: Text) { pattern == p + [STAR] && path == p + rest }

  predicate Literal(pattern: Text) { pattern == [] || pattern[|pattern| - 1] != STAR }

  // A pattern covers itself, if it has no wildcard, and otherwise what begins with it.
  ghost predicate Covers(pattern: Text, path: Text) {
    (pattern == path && Literal(pattern)) || exists p, rest :: Spells(pattern, path, p, rest)
  }

  lemma SpellsOnce(pattern: Text, path: Text, p: Text, rest: Text)
    requires Spells(pattern, path, p, rest)
    ensures Wild(pattern) && Stem(pattern) == p && HasPrefix(path, p)
  {
    assert pattern[|pattern| - 1] == STAR;
    assert path[..|p|] == p;
  }

  lemma CoversIsMatches(pattern: Text, path: Text)
    ensures Covers(pattern, path) <==> Matches(pattern, path)
    ensures Wild(pattern) && Matches(pattern, path) ==> Spells(pattern, path, Stem(pattern), path[|Stem(pattern)|..])
  {
    if Wild(pattern) && Matches(pattern, path) {
      var p := Stem(pattern);
      assert pattern == p + [STAR] && path == p + path[|p|..];
      assert Spells(pattern, path, p, path[|p|..]);
    }
    forall p, rest | Spells(pattern, path, p, rest) ensures Matches(pattern, path) {
      SpellsOnce(pattern, path, p, rest);
    }
  }

  // Rule i is the one whose say counts: the first for the path itself, if there is one,
  // and otherwise the first with the longest prefix of the path.
  ghost predicate Decider(cs: seq<Candidate>, path: Text, i: nat) {
    && i < |cs|
    && (if exists j :: 0 <= j < |cs| && IsLiteral(cs[j], path) then
          IsLiteral(cs[i], path) && forall j :: 0 <= j < i ==> !IsLiteral(cs[j], path)
        else
          exists p, rest :: Spells(cs[i].rule.path, path, p, rest) && LongestAt(cs, path, p, i))
  }

  predicate IsLiteral(c: Candidate, path: Text) { c.rule.path == path && Literal(path) }

  ghost predicate LongestAt(cs: seq<Candidate>, path: Text, p: Text, i: nat) {
    forall j, q, rest :: 0 <= j < |cs| && Spells(cs[j].rule.path, path, q, rest) ==>
      |q| < |p| || (|q| == |p| && i <= j)
  }

  lemma LiteralDecides(cs: seq<Candidate>, path: Text, i: nat)
    requires i < |cs| && IsLiteral(cs[i], path) && forall j :: 0 <= j < i ==> !IsLiteral(cs[j], path)
    ensures BestAt(cs, path, i)
  {
    hide HasPrefix;
    forall j: nat | MatchAt(cs, path, j)
      ensures !cs[j].Beats(cs[i]) && (j < i ==> cs[i].Beats(cs[j]))
    {
      if !Wild(cs[j].rule.path) {
        assert cs[j].rule.path == path;
      }
    }
  }

  lemma LongestDecides(cs: seq<Candidate>, path: Text, p: Text, rest: Text, i: nat)
    requires i < |cs| && Spells(cs[i].rule.path, path, p, rest) && LongestAt(cs, path, p, i)
    requires forall j :: 0 <= j < |cs| ==> !IsLiteral(cs[j], path)
    ensures BestAt(cs, path, i)
  {
    hide Matches;
    SpellsOnce(cs[i].rule.path, path, p, rest);
    CoversIsMatches(cs[i].rule.path, path);
    forall j: nat | MatchAt(cs, path, j)
      ensures !cs[j].Beats(cs[i]) && (j < i ==> cs[i].Beats(cs[j]))
    {
      NotLiteral(cs[j], path);
      CoversIsMatches(cs[j].rule.path, path);
      var q := Stem(cs[j].rule.path);
      assert Spells(cs[j].rule.path, path, q, path[|q|..]);
    }
  }

  lemma NotLiteral(c: Candidate, path: Text)
    requires !IsLiteral(c, path) && Matches(c.rule.path, path)
    ensures Wild(c.rule.path)
  {}

  lemma DeciderIsBest(cs: seq<Candidate>, path: Text, i: nat)
    requires Decider(cs, path, i)
    ensures BestAt(cs, path, i)
  {
    hide BestAt, LongestAt, Spells;
    if exists j :: 0 <= j < |cs| && IsLiteral(cs[j], path) {
      LiteralDecides(cs, path, i);
    } else {
      var p, rest :| Spells(cs[i].rule.path, path, p, rest) && LongestAt(cs, path, p, i);
      LongestDecides(cs, path, p, rest, i);
    }
  }

  lemma BestIsDecider(cs: seq<Candidate>, path: Text, i: nat)
    requires BestAt(cs, path, i)
    ensures Decider(cs, path, i)
  {
    hide Matches;
    CoversIsMatches(cs[i].rule.path, path);
    if exists j :: 0 <= j < |cs| && IsLiteral(cs[j], path) {
      var j :| 0 <= j < |cs| && IsLiteral(cs[j], path);
      LiteralMatches(cs, path, j);
      assert !cs[j].Beats(cs[i]);
      assert !Wild(cs[i].rule.path);
      ExactMatch(cs[i].rule.path, path);
      forall k | 0 <= k < i ensures !IsLiteral(cs[k], path) {
        if IsLiteral(cs[k], path) {
          LiteralMatches(cs, path, k);
        }
      }
    } else {
      NotLiteral(cs[i], path);
      var p := Stem(cs[i].rule.path);
      assert Spells(cs[i].rule.path, path, p, path[|p|..]);
      forall j, q, rest | 0 <= j < |cs| && Spells(cs[j].rule.path, path, q, rest)
        ensures |q| < |p| || (|q| == |p| && i <= j)
      {
        SpellsOnce(cs[j].rule.path, path, q, rest);
        CoversIsMatches(cs[j].rule.path, path);
        assert MatchAt(cs, path, j);
      }
      assert LongestAt(cs, path, p, i);
    }
  }

  lemma LiteralMatches(cs: seq<Candidate>, path: Text, j: nat)
    requires j < |cs| && IsLiteral(cs[j], path)
    ensures MatchAt(cs, path, j) && !Wild(cs[j].rule.path)
  {}

  lemma ExactMatch(pattern: Text, path: Text)
    requires Matches(pattern, path) && !Wild(pattern)
    ensures pattern == path && Literal(path)
  {}

  // A rule that denies and covers the path.
  ghost predicate Denying(cs: seq<Candidate>, path: Text, i: nat) {
    i < |cs| && Deny in cs[i].rule.capabilities && Covers(cs[i].rule.path, path)
  }

  // What is decided for a request that can be granted on a valid path: denial wherever
  // a covering rule denies, by the first of them; otherwise what the deciding rule
  // says, and refusal where no rule covers the path.
  lemma DecisionMeaning(cs: seq<Candidate>, path: Text, requested: Capability, d: Decision)
    requires Explains(cs, path, requested, d) && ValidPath(path) && !requested.Unknown? && !requested.Deny?
    ensures (exists i: nat :: Denying(cs, path, i)) <==> d.reason == DenialWins
    ensures d.reason == DenialWins ==>
      !d.allowed && exists i: nat :: Denying(cs, path, i) && d.policy == cs[i].policy && d.rule == cs[i].rule.path
    ensures forall i: nat :: d.reason != DenialWins && i < |cs| && Decider(cs, path, i) ==>
      d == Decision(requested in cs[i].rule.capabilities, cs[i].policy, cs[i].rule.path,
                    if requested in cs[i].rule.capabilities then Granted else NotGranted)
    ensures d.reason == NoMatch <==> forall i: nat :: i < |cs| ==> !Covers(cs[i].rule.path, path)
    ensures d.reason != DenialWins && d.reason != NoMatch ==> exists i: nat :: Decider(cs, path, i)
  {
    hide Matches, ValidPath, Covers, BestAt, Decider;
    forall i: nat | i < |cs| ensures Covers(cs[i].rule.path, path) == Matches(cs[i].rule.path, path) {
      CoversIsMatches(cs[i].rule.path, path);
    }
    assert forall i: nat :: Denying(cs, path, i) <==> DenyAt(cs, path, i);
    assert forall i: nat :: MatchAt(cs, path, i) <==> i < |cs| && Covers(cs[i].rule.path, path);
    if d.reason == DenialWins {
      var i: nat :| Names(cs, path, d, i);
      assert Denying(cs, path, i);
    }
    if d.reason != DenialWins {
      forall i: nat | i < |cs| && Decider(cs, path, i)
        ensures d == Decision(requested in cs[i].rule.capabilities, cs[i].policy, cs[i].rule.path,
                              if requested in cs[i].rule.capabilities then Granted else NotGranted)
      {
        DeciderIsBest(cs, path, i);
        BestDecides(cs, path, requested, d, i);
      }
      if AnyMatch(cs, path) {
        var i := BestExists(cs, path);
        BestIsDecider(cs, path, i);
      }
    }
  }

  lemma BestDecides(cs: seq<Candidate>, path: Text, requested: Capability, d: Decision, i: nat)
    requires Explains(cs, path, requested, d) && ValidPath(path) && requested.Grantable() && d.reason != DenialWins
    requires BestAt(cs, path, i)
    ensures i < |cs|
    ensures d == Decision(requested in cs[i].rule.capabilities, cs[i].policy, cs[i].rule.path,
                          if requested in cs[i].rule.capabilities then Granted else NotGranted)
  {
    assert MatchAt(cs, path, i);
    hide Matches, ValidPath, BestAt;
    var j: nat :| Names(cs, path, d, j);
    BestUnique(cs, path, i, j);
    OnlyBestDecides(cs, path, requested, i);
  }

  // ---- what a well-formed policy is ----

  lemma WellFormedMeaning(p: Policy)
    ensures WellFormed(p) <==>
      && 0 < |p.name| <= 128 && 0 < |p.rules| <= 256
      && (forall i, j :: 0 <= i < j < |p.rules| ==> p.rules[i].path != p.rules[j].path)
      && (forall i :: 0 <= i < |p.rules| ==> RuleWellFormed(p.rules[i]))
  {
    hide RuleWellFormed, RuleFault;
    forall r ensures RuleFault(r).None? <==> RuleWellFormed(r) {
      RuleMeaning(r);
    }
  }

  // A wildcard nowhere but at the end of a safe pattern, and nothing but Deny beside Deny.
  predicate RuleWellFormed(r: Rule) {
    && 0 < |r.path| <= 512
    && (forall i :: 0 <= i < |r.path| - 1 ==> r.path[i] != STAR)
    && SafeSegments(if r.path[|r.path| - 1] == STAR then r.path[..|r.path| - 1] else r.path)
    && r.capabilities != []
    && (forall i :: 0 <= i < |r.capabilities| ==> !r.capabilities[i].Unknown?)
    && (Deny in r.capabilities ==> forall i :: 0 <= i < |r.capabilities| ==> r.capabilities[i] == Deny)
  }

  lemma RuleMeaning(r: Rule)
    ensures RuleFault(r).None? <==> RuleWellFormed(r)
  {
    hide SafeSegments;
    if r.path != [] {
      var stem := Stem(r.path);
      assert STAR in stem <==> exists i :: 0 <= i < |stem| && stem[i] == STAR;
      assert forall i :: 0 <= i < |stem| ==> stem[i] == r.path[i];
    }
    CapabilitiesMeaning(r.capabilities);
  }

  lemma CapabilitiesMeaning(cs: seq<Capability>)
    ensures MoreThanDeny(cs) <==> !(forall i :: 0 <= i < |cs| ==> cs[i] == Deny)
    ensures (exists c :: c in cs && !c.Valid()) <==> !(forall i :: 0 <= i < |cs| ==> !cs[i].Unknown?)
  {
    forall i | 0 <= i < |cs|
      ensures cs[i] != Deny ==> MoreThanDeny(cs)
      ensures cs[i].Unknown? ==> exists c :: c in cs && !c.Valid()
    {
      assert cs[i] in cs;
    }
  }

  // ---- what the outcome depends on ----

  ghost predicate SameRules(cs: seq<Candidate>, ds: seq<Candidate>) { forall c :: c in cs <==> c in ds }

  // Rules for one pattern grant the same things, whichever policy they are in.
  ghost predicate Consistent(cs: seq<Candidate>) {
    forall i, j :: 0 <= i < |cs| && 0 <= j < |cs| && cs[i].rule.path == cs[j].rule.path ==>
      forall k: Capability :: Grants(cs[i].rule, k) <==> Grants(cs[j].rule, k)
  }

  lemma {:induction false} BestExists(cs: seq<Candidate>, path: Text) returns (i: nat)
    requires AnyMatch(cs, path)
    ensures i < |cs| && BestAt(cs, path, i)
  {
    hide Matches, Grants;
    var init, c := cs[..|cs| - 1], cs[|cs| - 1];
    assert cs == init + [c];
    forall j: nat
      ensures MatchAt(cs, path, j) <==> MatchAt(init, path, j) || (j == |init| && Matches(c.rule.path, path))
    {
      MatchAtExtended(init, c, path, j);
    }
    if AnyMatch(init, path) {
      i := BestExists(init, path);
      if Matches(c.rule.path, path) && c.Beats(init[i]) {
        i := |init|;
      }
    } else {
      i := |init|;
    }
  }

  lemma SameDenials(cs: seq<Candidate>, ds: seq<Candidate>, path: Text)
    requires SameRules(cs, ds)
    ensures AnyDeny(cs, path) ==> AnyDeny(ds, path)
    ensures AnyMatch(cs, path) ==> AnyMatch(ds, path)
  {
    hide Matches, Grants;
    if AnyMatch(cs, path) {
      var i: nat :| MatchAt(cs, path, i);
      assert cs[i] in ds;
      var j :| 0 <= j < |ds| && ds[j] == cs[i];
      assert MatchAt(ds, path, j);
    }
    if AnyDeny(cs, path) {
      var i: nat :| DenyAt(cs, path, i);
      assert cs[i] in ds;
      var j :| 0 <= j < |ds| && ds[j] == cs[i];
      assert DenyAt(ds, path, j);
    }
  }

  // The best rules of two orderings are for the same pattern.
  lemma SameBestPattern(cs: seq<Candidate>, ds: seq<Candidate>, path: Text, i: nat, j: nat)
    requires SameRules(cs, ds) && BestAt(cs, path, i) && BestAt(ds, path, j)
    ensures i < |cs| && j < |ds| && cs[i].rule.path == ds[j].rule.path
    ensures exists m :: 0 <= m < |cs| && cs[m] == ds[j]
  {
    hide Matches, Grants;
    assert cs[i] in ds && ds[j] in cs;
    var n :| 0 <= n < |ds| && ds[n] == cs[i];
    var m :| 0 <= m < |cs| && cs[m] == ds[j];
    assert MatchAt(ds, path, n) && MatchAt(cs, path, m);
    NoTies(cs[i], ds[j], path);
  }

  // Neither the order of the policies nor the order of the rules in them matters
  // where rules for one pattern agree on what they grant.
  lemma OrderIndependent(cs: seq<Candidate>, ds: seq<Candidate>, path: Text, requested: Capability)
    requires SameRules(cs, ds) && Consistent(cs)
    ensures Allows(cs, path, requested) <==> Allows(ds, path, requested)
  {
    hide Matches, Grants, ValidPath, SameRules, Consistent, BestAt, AnyDeny;
    SameDenials(cs, ds, path);
    assert SameRules(ds, cs) by {
      RulesSymmetric(cs, ds);
    }
    SameDenials(ds, cs, path);
    if AnyMatch(cs, path) {
      var i := BestExists(cs, path);
      var j := BestExists(ds, path);
      SameBestPattern(cs, ds, path, i, j);
      var m :| 0 <= m < |cs| && cs[m] == ds[j];
      ConsistentAt(cs, i, m, requested);
      OnlyBestDecides(cs, path, requested, i);
      OnlyBestDecides(ds, path, requested, j);
    } else {
      NoMatchNoDeny(cs, path);
      NoMatchNoDeny(ds, path);
    }
  }

  lemma RulesSymmetric(cs: seq<Candidate>, ds: seq<Candidate>)
    requires SameRules(cs, ds)
    ensures SameRules(ds, cs)
  {}

  lemma ConsistentAt(cs: seq<Candidate>, i: nat, j: nat, k: Capability)
    requires Consistent(cs) && i < |cs| && j < |cs| && cs[i].rule.path == cs[j].rule.path
    ensures Grants(cs[i].rule, k) <==> Grants(cs[j].rule, k)
  {
    hide Grants;
  }

  lemma OnlyBestDecides(cs: seq<Candidate>, path: Text, requested: Capability, i: nat)
    requires BestAt(cs, path, i)
    ensures (exists j: nat :: Decides(cs, path, requested, j)) <==> Grants(cs[i].rule, requested)
  {
    assert i < |cs|;
    hide Matches, Grants, BestAt;
    if Grants(cs[i].rule, requested) {
      assert Decides(cs, path, requested, i);
    }
    forall j: nat | Decides(cs, path, requested, j) ensures j == i {
      BestUnique(cs, path, i, j);
    }
  }

  predicate NoSharedPatterns(cs: seq<Candidate>) {
    forall i, j :: 0 <= i < |cs| && 0 <= j < |cs| && cs[i].rule.path == cs[j].rule.path ==> i == j
  }

  // With no pattern in two policies the whole decision is independent of order,
  // except for which of several denying rules it names.
  lemma DecisionOrderIndependent(
      cs: seq<Candidate>, ds: seq<Candidate>, path: Text, requested: Capability, d: Decision, e: Decision)
    requires SameRules(cs, ds) && NoSharedPatterns(cs)
    requires Explains(cs, path, requested, d) && Explains(ds, path, requested, e)
    ensures d.allowed == e.allowed && d.reason == e.reason
    ensures d.reason != DenialWins ==> d == e
  {
    hide Matches, Grants, ValidPath, SameRules, Consistent, NoSharedPatterns, BestAt, AnyDeny, AnyMatch, FirstDeny;
    assert Consistent(cs) by {
      NoSharedConsistent(cs);
    }
    OrderIndependent(cs, ds, path, requested);
    SameDenials(cs, ds, path);
    RulesSymmetric(cs, ds);
    SameDenials(ds, cs, path);
    ExplainedOnce(cs, path, requested, d, d);
    ExplainedOnce(ds, path, requested, e, e);
    if requested.Grantable() && ValidPath(path) && AnyMatch(cs, path) && !AnyDeny(cs, path) {
      var i: nat :| Names(cs, path, d, i);
      var j: nat :| Names(ds, path, e, j);
      SameBestPattern(cs, ds, path, i, j);
      var m :| 0 <= m < |cs| && cs[m] == ds[j];
      SharedAt(cs, i, m);
    }
  }

  lemma NoSharedConsistent(cs: seq<Candidate>)
    requires NoSharedPatterns(cs)
    ensures Consistent(cs)
  {}

  lemma SharedAt(cs: seq<Candidate>, i: nat, j: nat)
    requires NoSharedPatterns(cs) && i < |cs| && j < |cs| && cs[i].rule.path == cs[j].rule.path
    ensures i == j
  {}

  // Where two policies do share a pattern the earlier one decides: swapping them
  // changes the answer exactly when they disagree about the request.
  lemma EarlierPolicyDecides(a: Candidate, b: Candidate, requested: Capability)
    requires a.rule.path == b.rule.path && !Wild(a.rule.path) && ValidPath(a.rule.path) && requested.Grantable()
    requires !Grants(a.rule, Deny) && !Grants(b.rule, Deny)
    ensures Allows([a, b], a.rule.path, requested) <==> Grants(a.rule, requested)
    ensures Allows([b, a], a.rule.path, requested) <==> Grants(b.rule, requested)
  {
    hide Grants, ValidPath;
    var path := a.rule.path;
    assert BestAt([a, b], path, 0) && BestAt([b, a], path, 0);
    OnlyBestDecides([a, b], path, requested, 0);
    OnlyBestDecides([b, a], path, requested, 0);
    forall i: nat ensures !DenyAt([a, b], path, i) && !DenyAt([b, a], path, i) {}
  }

  // ---- adding denials ----

  predicate OnlyDenies(cs: seq<Candidate>) { forall i :: 0 <= i < |cs| ==> Grants(cs[i].rule, Deny) }

  // Rules that only deny, put anywhere, refuse exactly what they match and leave
  // every other answer alone; so they never turn a refusal into an allow.
  lemma DenialsOnlyRefuse(a: seq<Candidate>, b: seq<Candidate>, denials: seq<Candidate>, path: Text, requested: Capability)
    requires OnlyDenies(denials)
    ensures Allows(a + denials + b, path, requested) <==> Allows(a + b, path, requested) && !AnyMatch(denials, path)
  {
    hide Matches, ValidPath, BestAt, AnyDeny, AnyMatch;
    var cs, ds := a + b, a + denials + b;
    Inserted(a, b, denials, path);
    if !AnyMatch(denials, path) {
      if AnyMatch(cs, path) {
        var i := BestExists(cs, path);
        var j := if i < |a| then i else i + |denials|;
        InsertedBest(a, b, denials, path, i);
        OnlyBestDecides(cs, path, requested, i);
        OnlyBestDecides(ds, path, requested, j);
      } else {
        NoMatchNoDeny(cs, path);
        NoMatchNoDeny(ds, path);
      }
    }
  }

  lemma InsertedAt(a: seq<Candidate>, b: seq<Candidate>, denials: seq<Candidate>, path: Text, i: nat)
    requires !AnyMatch(denials, path)
    ensures MatchAt(a + b, path, i) ==> MatchAt(a + denials + b, path, if i < |a| then i else i + |denials|)
    ensures MatchAt(a + denials + b, path, i) ==>
      !(|a| <= i < |a| + |denials|) && MatchAt(a + b, path, if i < |a| then i else i - |denials|)
  {
    hide Matches;
    if |a| <= i < |a| + |denials| {
      assert !MatchAt(denials, path, i - |a|);
    }
  }

  lemma Inserted(a: seq<Candidate>, b: seq<Candidate>, denials: seq<Candidate>, path: Text)
    requires OnlyDenies(denials)
    ensures AnyMatch(denials, path) ==> AnyDeny(a + denials + b, path)
    ensures !AnyMatch(denials, path) ==> (AnyDeny(a + denials + b, path) <==> AnyDeny(a + b, path))
    ensures !AnyMatch(denials, path) ==> (AnyMatch(a + denials + b, path) <==> AnyMatch(a + b, path))
  {
    hide Matches, Grants;
    var cs, ds := a + b, a + denials + b;
    if AnyMatch(denials, path) {
      var i: nat :| MatchAt(denials, path, i);
      assert DenyAt(ds, path, |a| + i);
    } else {
      forall i: nat
        ensures MatchAt(cs, path, i) ==> AnyMatch(ds, path) && (DenyAt(cs, path, i) ==> AnyDeny(ds, path))
        ensures MatchAt(ds, path, i) ==> AnyMatch(cs, path) && (DenyAt(ds, path, i) ==> AnyDeny(cs, path))
      {
        InsertedAt(a, b, denials, path, i);
        if MatchAt(cs, path, i) {
          var j := if i < |a| then i else i + |denials|;
          assert cs[i] == ds[j];
          assert DenyAt(cs, path, i) <==> DenyAt(ds, path, j);
        }
        if MatchAt(ds, path, i) {
          var j := if i < |a| then i else i - |denials|;
          assert cs[j] == ds[i];
          assert DenyAt(ds, path, i) <==> DenyAt(cs, path, j);
        }
      }
    }
  }

  lemma InsertedBest(a: seq<Candidate>, b: seq<Candidate>, denials: seq<Candidate>, path: Text, i: nat)
    requires !AnyMatch(denials, path) && BestAt(a + b, path, i)
    ensures var j := if i < |a| then i else i + |denials|;
      BestAt(a + denials + b, path, j) && (a + denials + b)[j] == (a + b)[i]
  {
    hide Matches, AnyMatch;
    var cs, ds := a + b, a + denials + b;
    var j := if i < |a| then i else i + |denials|;
    InsertedAt(a, b, denials, path, i);
    forall k: nat | MatchAt(ds, path, k)
      ensures !ds[k].Beats(ds[j]) && (k < j ==> ds[j].Beats(ds[k]))
    {
      InsertedAt(a, b, denials, path, k);
      var l := if k < |a| then k else k - |denials|;
      assert ds[k] == cs[l] && MatchAt(cs, path, l);
    }
  }

  // ---- the same, said of policies ----

  // A rule of a policy by this name, whatever its place.
  predicate Holds(policies: seq<Policy>, name: Text, rule: Rule) {
    exists i :: 0 <= i < |policies| && policies[i].name == name && rule in policies[i].rules
  }

  // The policies, or the rules within them, in another order.
  ghost predicate Reordered(ps: seq<Policy>, qs: seq<Policy>) {
    forall name, rule :: Holds(ps, name, rule) <==> Holds(qs, name, rule)
  }

  lemma ListedHolds(p: Policy, c: Candidate)
    ensures c in Listed(p) <==> p.name == c.policy && c.rule in p.rules
  {
    if p.name == c.policy && c.rule in p.rules {
      var i :| 0 <= i < |p.rules| && p.rules[i] == c.rule;
      assert Listed(p)[i] == c;
    }
  }

  lemma HoldsLast(ps: seq<Policy>, last: Policy, name: Text, rule: Rule)
    ensures Holds(ps + [last], name, rule) <==> Holds(ps, name, rule) || (last.name == name && rule in last.rules)
  {
    var more := ps + [last];
    assert more[|ps|] == last;
    if Holds(ps, name, rule) {
      var i :| 0 <= i < |ps| && ps[i].name == name && rule in ps[i].rules;
      assert more[i] == ps[i];
    }
  }

  lemma {:induction false} FlatHolds(policies: seq<Policy>, c: Candidate)
    ensures c in Flat(policies) <==> Holds(policies, c.policy, c.rule)
    decreases |policies|
  {
    hide Flat, Listed, Holds;
    if policies == [] {
      NothingHeld(c);
    } else {
      var init, last := policies[..|policies| - 1], policies[|policies| - 1];
      assert init + [last] == policies;
      FlatHolds(init, c);
      FlatLast(init, last);
      ListedHolds(last, c);
      HoldsLast(init, last, c.policy, c.rule);
    }
  }

  lemma NothingHeld(c: Candidate)
    ensures c !in Flat([]) && !Holds([], c.policy, c.rule)
  {}

  lemma ReorderedSameRules(ps: seq<Policy>, qs: seq<Policy>)
    requires Reordered(ps, qs)
    ensures SameRules(Flat(ps), Flat(qs))
  {
    hide Flat, Holds;
    forall c ensures c in Flat(ps) <==> c in Flat(qs) {
      FlatHolds(ps, c);
      FlatHolds(qs, c);
      assert Holds(ps, c.policy, c.rule) <==> Holds(qs, c.policy, c.rule);
    }
  }

  // Neither the order of the policies nor that of the rules in them changes an answer
  // where rules for one pattern agree on what they grant.
  lemma ReorderingKeepsAnswers(ps: seq<Policy>, qs: seq<Policy>, path: Text, requested: Capability)
    requires Reordered(ps, qs) && Consistent(Flat(ps))
    ensures Allows(Flat(ps), path, requested) <==> Allows(Flat(qs), path, requested)
  {
    hide Flat, Reordered, Consistent, SameRules, Allows;
    ReorderedSameRules(ps, qs);
    OrderIndependent(Flat(ps), Flat(qs), path, requested);
  }

  lemma FlatLast(ps: seq<Policy>, last: Policy)
    ensures Flat(ps + [last]) == Flat(ps) + Listed(last)
  {
    hide Listed;
    assert (ps + [last])[..|ps|] == ps;
  }

  lemma {:induction false} FlatAppend(ps: seq<Policy>, qs: seq<Policy>)
    ensures Flat(ps + qs) == Flat(ps) + Flat(qs)
    decreases |qs|
  {
    hide Flat, Listed;
    if qs == [] {
      NothingScanned([]);
      assert ps + qs == ps;
    } else {
      var init, last := qs[..|qs| - 1], qs[|qs| - 1];
      assert init + [last] == qs && ps + init + [last] == ps + qs;
      FlatAppend(ps, init);
      FlatLast(init, last);
      FlatLast(ps + init, last);
    }
  }

  lemma FlatInserted(ps: seq<Policy>, p: Policy, qs: seq<Policy>)
    ensures Flat(ps + [p] + qs) == Flat(ps) + Listed(p) + Flat(qs)
  {
    hide Listed;
    FlatAppend(ps + [p], qs);
    FlatLast(ps, p);
  }

  // A policy that only denies, put anywhere in a set, refuses exactly what its rules
  // match and leaves every other answer alone.
  lemma DenyingPolicyOnlyRefuses(ps: seq<Policy>, p: Policy, qs: seq<Policy>, path: Text, requested: Capability)
    requires forall i :: 0 <= i < |p.rules| ==> Grants(p.rules[i], Deny)
    ensures Allows(Flat(ps + [p] + qs), path, requested) <==>
      Allows(Flat(ps + qs), path, requested) && forall i :: 0 <= i < |p.rules| ==> !Matches(p.rules[i].path, path)
  {
    hide Allows, Flat, Matches, Grants;
    FlatInserted(ps, p, qs);
    FlatAppend(ps, qs);
    forall i: nat ensures MatchAt(Listed(p), path, i) <==> i < |p.rules| && Matches(p.rules[i].path, path) {}
    DenialsOnlyRefuse(Flat(ps), Flat(qs), Listed(p), path, requested);
  }

  // Nor does it change anything else of a decision, but for which of several denying
  // rules it names, where no pattern occurs twice.
  lemma ReorderingKeepsDecisions(ps: seq<Policy>, qs: seq<Policy>, path: Text, requested: Capability, d: Decision, e: Decision)
    requires NoSharedPatterns(Flat(ps)) && Reordered(ps, qs)
    requires Explains(Flat(ps), path, requested, d) && Explains(Flat(qs), path, requested, e)
    ensures d.allowed == e.allowed && d.reason == e.reason
    ensures d.reason != DenialWins ==> d == e
  {
    hide Flat, Reordered, NoSharedPatterns, SameRules, Explains;
    ReorderedSameRules(ps, qs);
    DecisionOrderIndependent(Flat(ps), Flat(qs), path, requested, d, e);
  }
}
