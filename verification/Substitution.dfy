/** Reference substitution in parameter values. */
module Substitution {
  import opened Wrappers
  import opened Encoding
  import opened Paths

  const DOLLAR: byte := 36
  const OPEN: byte := 123
  const CLOSE: byte := 125

  // ---- strings ----

  // Every occurrence, leftmost first, of a nonempty pattern.
  function ReplaceAll(s: Text, pattern: Text, into: Text): Text
    requires pattern != []
    decreases |s|
  {
    if s == [] then []
    else if HasPrefix(s, pattern) then into + ReplaceAll(s[|pattern|..], pattern, into)
    else [s[0]] + ReplaceAll(s[1..], pattern, into)
  }

  // ---- what the reference pattern matches ----

  predicate BodyByte(b: byte) { b != OPEN && b != CLOSE && b != DOLLAR }

  predicate ValidBody(body: Text) { body != [] && forall i :: 0 <= i < |body| ==> BodyByte(body[i]) }

  // The match text of a reference: a dollar sign and the body in braces.
  function Written(body: Text): (s: Text)
    ensures |s| == |body| + 3
  {
    [DOLLAR, OPEN] + body + [CLOSE]
  }

  // How many bytes at the front can belong to a body.
  function Run(s: Text): (n: nat)
    ensures n <= |s|
    ensures forall i :: 0 <= i < n ==> BodyByte(s[i])
    ensures n < |s| ==> !BodyByte(s[n])
  {
    if s == [] || !BodyByte(s[0]) then 0 else 1 + Run(s[1..])
  }

  // The body of a reference that starts here.
  function MatchHere(s: Text): (m: Option<Text>)
    ensures m.Some? ==> ValidBody(m.value) && HasPrefix(s, Written(m.value))
  {
    if |s| < 2 || s[0] != DOLLAR || s[1] != OPEN then None
    else
      var n := Run(s[2..]);
      if n > 0 && n + 2 < |s| && s[n + 2] == CLOSE then
        assert s[..n + 3] == [DOLLAR, OPEN] + s[2..n + 2] + [CLOSE];
        Some(s[2..n + 2])
      else None
  }

  lemma MatchUnique(s: Text, body: Text)
    requires ValidBody(body) && HasPrefix(s, Written(body))
    ensures MatchHere(s) == Some(body)
  {
    var n := |body|;
    var w := Written(body);
    forall i | 0 <= i < |w| ensures s[i] == w[i] {
      assert s[..|w|][i] == w[i];
    }
    assert s[2..n + 2] == body;
    var t := s[2..];
    forall i | 0 <= i < n ensures BodyByte(t[i]) {
      assert t[i] == body[i];
    }
    assert t[n] == CLOSE;
    assert Run(t) == n;
  }

  // ---- a value as plain bytes and references ----

  datatype Token = Plain(b: byte) | Ref(body: Text)

  // Leftmost matches; what matches overlap nothing before them.
  function Tokens(s: Text): (ts: seq<Token>)
    ensures forall i :: 0 <= i < |ts| && ts[i].Ref? ==> ValidBody(ts[i].body)
    decreases |s|
  {
    if s == [] then []
    else
      var m := MatchHere(s);
      if m.Some? then [Ref(m.value)] + Tokens(s[|m.value| + 3..])
      else [Plain(s[0])] + Tokens(s[1..])
  }

  function Flatten(ts: seq<Token>): Text {
    if ts == [] then []
    else (match ts[0] case Plain(b) => [b] case Ref(body) => Written(body)) + Flatten(ts[1..])
  }

  function Refs(ts: seq<Token>): (bodies: seq<Text>) {
    if ts == [] then []
    else if ts[0].Ref? then [ts[0].body] + Refs(ts[1..])
    else Refs(ts[1..])
  }

  function Plains(s: Text): (ts: seq<Token>)
    ensures |ts| == |s|
    ensures forall i :: 0 <= i < |s| ==> ts[i] == Plain(s[i])
  {
    seq(|s|, i requires 0 <= i < |s| => Plain(s[i]))
  }

  // Replaces the references to one body.
  function Sub(ts: seq<Token>, body: Text, into: Text): seq<Token> {
    if ts == [] then []
    else (if ts[0] == Ref(body) then Plains(into) else [ts[0]]) + Sub(ts[1..], body, into)
  }

  type Plaintexts = Text -> Text

  // Replaces every reference at once.
  function Simultaneous(ts: seq<Token>, plaintext: Plaintexts): Text {
    if ts == [] then []
    else (match ts[0] case Plain(b) => [b] case Ref(body) => plaintext(body)) + Simultaneous(ts[1..], plaintext)
  }

  // What Resolve does: one ReplaceAll for each match, in order.
  function Sequential(s: Text, bodies: seq<Text>, plaintext: Plaintexts): Text
    decreases |bodies|
  {
    if bodies == [] then s
    else Sequential(ReplaceAll(s, Written(bodies[0]), plaintext(bodies[0])), bodies[1..], plaintext)
  }

  lemma {:induction false} FlattenAppend(a: seq<Token>, b: seq<Token>)
    ensures Flatten(a + b) == Flatten(a) + Flatten(b)
    decreases |a|
  {
    if a == [] {
      assert a + b == b;
    } else {
      assert (a + b)[1..] == a[1..] + b;
      FlattenAppend(a[1..], b);
    }
  }

  lemma {:induction false} FlattenPlains(s: Text)
    ensures Flatten(Plains(s)) == s
    decreases |s|
  {
    if s != [] {
      assert Plains(s)[1..] == Plains(s[1..]);
      FlattenPlains(s[1..]);
    }
  }

  lemma {:induction false} FlattenTokens(s: Text)
    ensures Flatten(Tokens(s)) == s
    decreases |s|
  {
    if s != [] {
      var m := MatchHere(s);
      if m.Some? {
        var n := |m.value| + 3;
        assert s == s[..n] + s[n..];
        FlattenTokens(s[n..]);
      } else {
        FlattenTokens(s[1..]);
      }
    }
  }

  predicate NoDollar(s: Text) { forall i :: 0 <= i < |s| ==> s[i] != DOLLAR }

  lemma SomeMember(s: seq<Text>)
    ensures s != [] ==> exists b :: b in s
  {
    if s != [] {
      assert s[0] in s;
    }
  }

  lemma {:induction false} ReplaceSkips(front: Text, s: Text, pattern: Text, into: Text)
    requires pattern != [] && pattern[0] == DOLLAR && NoDollar(front)
    ensures ReplaceAll(front + s, pattern, into) == front + ReplaceAll(s, pattern, into)
    decreases |front|
  {
    if front == [] {
      assert front + s == s;
    } else {
      assert (front + s)[1..] == front[1..] + s;
      PrefixHead(front + s, pattern);
      ReplaceSkips(front[1..], s, pattern, into);
    }
  }

  // At a match with another text nothing is replaced.
  lemma ReplaceOverMatch(s: Text, body: Text, into: Text)
    requires ValidBody(body) && MatchHere(s).Some? && MatchHere(s).value != body
    ensures var w := Written(MatchHere(s).value);
      ReplaceAll(s, Written(body), into) == w + ReplaceAll(s[|w|..], Written(body), into)
  {
    var m := MatchHere(s).value;
    var w := Written(m);
    if HasPrefix(s, Written(body)) {
      MatchUnique(s, body);
    }
    var front, rest := [OPEN] + m + [CLOSE], s[|w|..];
    assert w == [DOLLAR] + front;
    assert s == w + rest;
    assert s[1..] == front + rest;
    ReplaceSkips(front, rest, Written(body), into);
    assert s[0] == DOLLAR;
  }

  // One ReplaceAll on any value replaces exactly the matches with that text.
  lemma {:induction false} ReplaceIsSub(s: Text, body: Text, into: Text)
    requires ValidBody(body)
    ensures ReplaceAll(s, Written(body), into) == Flatten(Sub(Tokens(s), body, into))
    decreases |s|
  {
    hide MatchHere, Written, HasPrefix, ValidBody;
    if s != [] {
      var m := MatchHere(s);
      if m.Some? {
        TokensAtMatch(s);
        var rest := s[|m.value| + 3..];
        ReplaceIsSub(rest, body, into);
        if m.value == body {
          ReplaceAtMatch(s, into);
          FlattenAppend(Plains(into), Sub(Tokens(rest), body, into));
          FlattenPlains(into);
        } else {
          ReplaceOverMatch(s, body, into);
          assert Sub(Tokens(s), body, into) == [Ref(m.value)] + Sub(Tokens(rest), body, into);
        }
      } else {
        NoMatchNoPrefix(s, body);
        ReplaceIsSub(s[1..], body, into);
        assert Tokens(s)[1..] == Tokens(s[1..]);
        assert Sub(Tokens(s), body, into) == [Plain(s[0])] + Sub(Tokens(s[1..]), body, into);
      }
    }
  }

  lemma TokensAtMatch(s: Text)
    requires MatchHere(s).Some?
    ensures var m := MatchHere(s).value;
      |s| >= |m| + 3 && Tokens(s)[0] == Ref(m) && Tokens(s)[1..] == Tokens(s[|m| + 3..])
  {}

  lemma ReplaceAtMatch(s: Text, into: Text)
    requires MatchHere(s).Some?
    ensures var m := MatchHere(s).value;
      |s| >= |m| + 3 && ReplaceAll(s, Written(m), into) == into + ReplaceAll(s[|m| + 3..], Written(m), into)
  {}

  lemma NoMatchNoPrefix(s: Text, body: Text)
    requires ValidBody(body) && MatchHere(s).None?
    ensures !HasPrefix(s, Written(body))
  {
    if HasPrefix(s, Written(body)) {
      MatchUnique(s, body);
    }
  }

  // ---- values whose every dollar sign starts a match ----

  predicate Clean(ts: seq<Token>) {
    && (forall i :: 0 <= i < |ts| && ts[i].Plain? ==> ts[i].b != DOLLAR)
    && (forall i :: 0 <= i < |ts| && ts[i].Ref? ==> ValidBody(ts[i].body))
  }

  lemma {:induction false} TokensOfFlatten(ts: seq<Token>)
    requires Clean(ts)
    ensures Tokens(Flatten(ts)) == ts
    decreases |ts|
  {
    if ts != [] {
      var rest := Flatten(ts[1..]);
      TokensOfFlatten(ts[1..]);
      match ts[0]
      case Plain(b) =>
        assert Flatten(ts)[1..] == rest;
        assert MatchHere(Flatten(ts)).None?;
      case Ref(body) =>
        assert Flatten(ts)[..|body| + 3] == Written(body);
        MatchUnique(Flatten(ts), body);
        assert Flatten(ts)[|body| + 3..] == rest;
    }
  }

  lemma {:induction false} SubClean(ts: seq<Token>, body: Text, into: Text)
    requires Clean(ts) && NoDollar(into)
    ensures Clean(Sub(ts, body, into))
    decreases |ts|
  {
    if ts != [] {
      SubClean(ts[1..], body, into);
    }
  }

  lemma {:induction false} SubRefs(ts: seq<Token>, body: Text, into: Text, other: Text)
    ensures other in Refs(Sub(ts, body, into)) <==> other in Refs(ts) && other != body
    decreases |ts|
  {
    if ts != [] {
      SubRefs(ts[1..], body, into, other);
      if ts[0] == Ref(body) {
        PlainsHaveNoRefs(into, Sub(ts[1..], body, into));
      } else {
        assert Sub(ts, body, into)[1..] == Sub(ts[1..], body, into);
      }
    }
  }

  lemma {:induction false} PlainsHaveNoRefs(s: Text, ts: seq<Token>)
    ensures Refs(Plains(s) + ts) == Refs(ts)
    decreases |s|
  {
    if s == [] {
      assert Plains(s) + ts == ts;
    } else {
      assert (Plains(s) + ts)[1..] == Plains(s[1..]) + ts;
      PlainsHaveNoRefs(s[1..], ts);
    }
  }

  lemma {:induction false} SimultaneousAppend(a: seq<Token>, b: seq<Token>, plaintext: Plaintexts)
    ensures Simultaneous(a + b, plaintext) == Simultaneous(a, plaintext) + Simultaneous(b, plaintext)
    decreases |a|
  {
    if a == [] {
      assert a + b == b;
    } else {
      assert (a + b)[1..] == a[1..] + b;
      SimultaneousAppend(a[1..], b, plaintext);
    }
  }

  lemma {:induction false} SimultaneousPlains(s: Text, plaintext: Plaintexts)
    ensures Simultaneous(Plains(s), plaintext) == s
    decreases |s|
  {
    if s != [] {
      assert Plains(s)[1..] == Plains(s[1..]);
      SimultaneousPlains(s[1..], plaintext);
    }
  }

  // Replacing one reference first does not change what replacing all gives.
  lemma {:induction false} SubThenAll(ts: seq<Token>, body: Text, plaintext: Plaintexts)
    ensures Simultaneous(Sub(ts, body, plaintext(body)), plaintext) == Simultaneous(ts, plaintext)
    decreases |ts|
  {
    if ts != [] {
      SubThenAll(ts[1..], body, plaintext);
      if ts[0] == Ref(body) {
        SimultaneousAppend(Plains(plaintext(body)), Sub(ts[1..], body, plaintext(body)), plaintext);
        SimultaneousPlains(plaintext(body), plaintext);
      } else {
        assert Sub(ts, body, plaintext(body))[1..] == Sub(ts[1..], body, plaintext(body));
      }
    }
  }

  lemma {:induction false} NoRefsLeft(ts: seq<Token>, plaintext: Plaintexts)
    requires Refs(ts) == []
    ensures Simultaneous(ts, plaintext) == Flatten(ts)
    decreases |ts|
  {
    if ts != [] {
      NoRefsLeft(ts[1..], plaintext);
    }
  }

  lemma {:induction false} SequentialOnClean(ts: seq<Token>, bodies: seq<Text>, plaintext: Plaintexts)
    requires Clean(ts)
    requires forall i :: 0 <= i < |bodies| ==> ValidBody(bodies[i]) && NoDollar(plaintext(bodies[i]))
    requires forall b :: b in Refs(ts) ==> b in bodies
    ensures Sequential(Flatten(ts), bodies, plaintext) == Simultaneous(ts, plaintext)
    decreases |bodies|
  {
    if bodies == [] {
      SomeMember(Refs(ts));
      NoRefsLeft(ts, plaintext);
    } else {
      var b, p := bodies[0], plaintext(bodies[0]);
      var ts' := Sub(ts, b, p);
      TokensOfFlatten(ts);
      ReplaceIsSub(Flatten(ts), b, p);
      SubClean(ts, b, p);
      forall other | other in Refs(ts') ensures other in bodies[1..] {
        SubRefs(ts, b, p, other);
      }
      SequentialOnClean(ts', bodies[1..], plaintext);
      SubThenAll(ts, b, plaintext);
    }
  }

  // Replacing the matches one after another is replacing them all at once when
  // every dollar sign of the value starts a match and no plaintext holds one.
  lemma SequentialIsSimultaneous(s: Text, plaintext: Plaintexts)
    requires Clean(Tokens(s)) && forall b :: b in Refs(Tokens(s)) ==> NoDollar(plaintext(b))
    ensures Sequential(s, Refs(Tokens(s)), plaintext) == Simultaneous(Tokens(s), plaintext)
  {
    var ts := Tokens(s);
    FlattenTokens(s);
    RefsValid(ts);
    SequentialOnClean(ts, Refs(ts), plaintext);
  }

  lemma {:induction false} RefsValid(ts: seq<Token>)
    requires forall i :: 0 <= i < |ts| && ts[i].Ref? ==> ValidBody(ts[i].body)
    ensures forall i :: 0 <= i < |Refs(ts)| ==> ValidBody(Refs(ts)[i])
    decreases |ts|
  {
    if ts != [] {
      RefsValid(ts[1..]);
    }
  }

  // A single match needs neither hypothesis.
  lemma SingleMatchIsSimultaneous(s: Text, plaintext: Plaintexts)
    requires |Refs(Tokens(s))| == 1
    ensures Sequential(s, Refs(Tokens(s)), plaintext) == Simultaneous(Tokens(s), plaintext)
  {
    var ts := Tokens(s);
    var b := Refs(ts)[0];
    RefsValid(ts);
    ReplaceIsSub(s, b, plaintext(b));
    SubThenAll(ts, b, plaintext);
    var ts' := Sub(ts, b, plaintext(b));
    forall other ensures other !in Refs(ts') {
      SubRefs(ts, b, plaintext(b), other);
    }
    SomeMember(Refs(ts'));
    NoRefsLeft(ts', plaintext);
    assert Refs(ts)[1..] == [];
  }

  // The hypothesis on plaintexts is needed: when the first of two references is
  // revealed as the text of the second, that text is replaced in its turn.
  lemma RevealedReferenceIsReplacedAgain(first: Text, second: Text, plaintext: Plaintexts)
    requires ValidBody(first) && ValidBody(second) && first != second
    requires plaintext(first) == Written(second) && plaintext(second) == []
    ensures var s := Written(first) + Written(second);
      && Clean(Tokens(s)) && Refs(Tokens(s)) == [first, second]
      && Simultaneous(Tokens(s), plaintext) == Written(second)
      && Sequential(s, [first, second], plaintext) == []
  {
    hide Tokens, Written, ReplaceAll, MatchHere;
    var ts, again := [Ref(first), Ref(second)], [Ref(second), Ref(second)];
    var s := Written(first) + Written(second);
    OneRef(second, plaintext);
    assert ts[1..] == [Ref(second)] && again[1..] == [Ref(second)];
    assert Flatten(ts) == s && Flatten(again) == Written(second) + Written(second);
    TokensOfFlatten(ts);
    TokensOfFlatten(again);
    ReplaceIsSub(s, first, Written(second));
    assert Sub([Ref(second)], first, Written(second)) == [Ref(second)];
    FlattenAppend(Plains(Written(second)), [Ref(second)]);
    FlattenPlains(Written(second));
    var s' := Flatten(again);
    ReplaceIsSub(s', second, []);
    assert Sub([Ref(second)], second, []) == [];
    SequentialOfTwo(s, first, second, plaintext);
  }

  lemma OneRef(body: Text, plaintext: Plaintexts)
    ensures Flatten([Ref(body)]) == Written(body)
    ensures Refs([Ref(body)]) == [body]
    ensures Simultaneous([Ref(body)], plaintext) == plaintext(body)
  {
    assert [Ref(body)][1..] == [];
  }

  lemma SequentialOfTwo(s: Text, first: Text, second: Text, plaintext: Plaintexts)
    ensures Sequential(s, [first, second], plaintext)
      == ReplaceAll(ReplaceAll(s, Written(first), plaintext(first)), Written(second), plaintext(second))
  {
    var s' := ReplaceAll(s, Written(first), plaintext(first));
    assert [first, second][1..] == [second] && [second][1..] == [];
    assert Sequential(s', [second], plaintext) == Sequential(ReplaceAll(s', Written(second), plaintext(second)), [], plaintext);
  }

  // ---- Resolve ----

  const MAX_REFERENCES := 8
  const SECRET: Text := [115, 101, 99, 114, 101, 116]

  datatype ResolveError =
    | TooManyReferences | BadReference(target: Text) | AuthorizerFailed
    | ReferenceForbidden(target: Text) | ReferenceMissing

  datatype Resolved = Resolved(value: Text, sensitive: bool, references: seq<Text>)

  // What the authorizer and the secret reader answer during one call.
  type Authorizer = Text -> Result<bool, ()>
  type Secrets = Text -> Result<Text, ()>

  function SecretPrefix(tenant: Text): Text { SECRET + [SLASH] + tenant + [SLASH] }

  predicate Acceptable(tenant: Text, target: Text) {
    HasPrefix(target, SecretPrefix(tenant)) && SafePath(target[|SecretPrefix(tenant)|..])
  }

  function Reveal(tenant: Text, authorize: Authorizer, secrets: Secrets, body: Text): Result<Text, ResolveError> {
    var target := TrimSpace(body);
    if !Acceptable(tenant, target) then Failure(BadReference(target))
    else if authorize(target).Failure? then Failure(AuthorizerFailed)
    else if !authorize(target).value then Failure(ReferenceForbidden(target))
    else
      var plaintext := secrets(target[|SecretPrefix(tenant)|..]);
      if plaintext.Failure? then Failure(ReferenceMissing) else Success(plaintext.value)
  }

  // A reference is revealed exactly when it reads secret/, the caller's tenant, a slash
  // and a safe path, white space around it left out, and the caller may read it.
  lemma RevealMeaning(tenant: Text, authorize: Authorizer, secrets: Secrets, body: Text, plaintext: Text)
    ensures Reveal(tenant, authorize, secrets, body) == Success(plaintext) <==>
      exists path :: Names(body, tenant, path) && SafePath(path)
        && authorize(TrimSpace(body)) == Success(true) && secrets(path) == Success(plaintext)
  {
    hide TrimSpace, SafePath;
    var prefix, target := SecretPrefix(tenant), TrimSpace(body);
    assert prefix == SECRET + [SLASH] + tenant + [SLASH];
    if HasPrefix(target, prefix) {
      assert target == prefix + target[|prefix|..];
      assert Names(body, tenant, target[|prefix|..]);
    }
    forall path | Names(body, tenant, path) ensures HasPrefix(target, prefix) && target[|prefix|..] == path {}
  }

  predicate Names(body: Text, tenant: Text, path: Text) {
    TrimSpace(body) == [115, 101, 99, 114, 101, 116, 47] + tenant + [47] + path
  }

  function Revealed(tenant: Text, authorize: Authorizer, secrets: Secrets): Plaintexts {
    body => var r := Reveal(tenant, authorize, secrets, body); if r.Success? then r.value else []
  }

  function Targets(bodies: seq<Text>): (targets: seq<Text>)
    ensures |targets| == |bodies|
  {
    seq(|bodies|, i requires 0 <= i < |bodies| => TrimSpace(bodies[i]))
  }

  predicate FirstFailure(tenant: Text, authorize: Authorizer, secrets: Secrets, bodies: seq<Text>, i: nat, error: ResolveError)
    requires i < |bodies|
  {
    && Reveal(tenant, authorize, secrets, bodies[i]) == Failure(error)
    && forall j :: 0 <= j < i ==> Reveal(tenant, authorize, secrets, bodies[j]).Success?
  }

  method Resolve(value: Text, tenant: Text, authorize: Authorizer, secrets: Secrets) returns (r: Result<Resolved, ResolveError>)
    ensures var bodies := Refs(Tokens(value));
      && (bodies == [] ==> r == Success(Resolved(value, false, [])))
      && (|bodies| > MAX_REFERENCES ==> r == Failure(TooManyReferences))
      && (0 < |bodies| <= MAX_REFERENCES ==>
        && (r.Success? <==> forall i :: 0 <= i < |bodies| ==> Reveal(tenant, authorize, secrets, bodies[i]).Success?)
        && (r.Success? ==> r.value == Resolved(Sequential(value, bodies, Revealed(tenant, authorize, secrets)), true, Targets(bodies)))
        && (r.Failure? ==> exists i :: 0 <= i < |bodies| && FirstFailure(tenant, authorize, secrets, bodies, i, r.error)))
  {
    hide Tokens, Refs, SafePath, TrimSpace, Written, ReplaceAll;
    var matches := Refs(Tokens(value));
    RefsValid(Tokens(value));
    if |matches| == 0 {
      return Success(Resolved(value, false, []));
    }
    if |matches| > MAX_REFERENCES {
      return Failure(TooManyReferences);
    }
    var current, references := value, [];
    ghost var f := Revealed(tenant, authorize, secrets);
    for i := 0 to |matches|
      invariant forall j :: 0 <= j < i ==> Reveal(tenant, authorize, secrets, matches[j]).Success?
      invariant Sequential(current, matches[i..], f) == Sequential(value, matches, f)
      invariant |references| == i && forall j :: 0 <= j < i ==> references[j] == TrimSpace(matches[j])
    {
      var target := TrimSpace(matches[i]);
      if !Acceptable(tenant, target) {
        assert FirstFailure(tenant, authorize, secrets, matches, i, BadReference(target));
        return Failure(BadReference(target));
      }
      var decision := authorize(target);
      if decision.Failure? {
        assert FirstFailure(tenant, authorize, secrets, matches, i, AuthorizerFailed);
        return Failure(AuthorizerFailed);
      }
      if !decision.value {
        assert FirstFailure(tenant, authorize, secrets, matches, i, ReferenceForbidden(target));
        return Failure(ReferenceForbidden(target));
      }
      var plaintext := secrets(target[|SecretPrefix(tenant)|..]);
      if plaintext.Failure? {
        assert FirstFailure(tenant, authorize, secrets, matches, i, ReferenceMissing);
        return Failure(ReferenceMissing);
      }
      assert matches[i..][1..] == matches[i + 1..];
      current := ReplaceAll(current, Written(matches[i]), plaintext.value);
      references := references + [target];
    }
    assert references == Targets(matches);
    return Success(Resolved(current, true, references));
  }

  // Every plaintext that entered a resolved value was authorized for the caller and
  // read from the caller's own tenant, whatever the value and the plaintexts hold.
  lemma ResolvedIsAuthorized(value: Text, tenant: Text, authorize: Authorizer, secrets: Secrets, i: nat)
    requires i < |Refs(Tokens(value))| && Reveal(tenant, authorize, secrets, Refs(Tokens(value))[i]).Success?
    ensures var body := Refs(Tokens(value))[i];
      var target := Targets(Refs(Tokens(value)))[i];
      && HasPrefix(target, SecretPrefix(tenant))
      && SafePath(target[|SecretPrefix(tenant)|..])
      && authorize(target) == Success(true)
      && secrets(target[|SecretPrefix(tenant)|..]) == Success(Revealed(tenant, authorize, secrets)(body))
  {
    hide TrimSpace, SafePath, Tokens;
  }

  // For a clean value the result is one simultaneous substitution.
  lemma ResolvedIsSimultaneous(value: Text, tenant: Text, authorize: Authorizer, secrets: Secrets)
    requires Clean(Tokens(value))
    requires forall b :: b in Refs(Tokens(value)) ==> NoDollar(Revealed(tenant, authorize, secrets)(b))
    ensures var bodies, f := Refs(Tokens(value)), Revealed(tenant, authorize, secrets);
      Sequential(value, bodies, f) == Simultaneous(Tokens(value), f)
  {
    hide TrimSpace, SafePath;
    SequentialIsSimultaneous(value, Revealed(tenant, authorize, secrets));
  }
}
