/** Stored policies, who they are bound to, and the authorization check over them. */
module PolicyManager {
  import opened Wrappers
  import opened Encoding
  import opened Limits
  import opened Ordering
  import opened Policies

  const MAX_BOUND := 64

  datatype ManagerError = InvalidTenant | NotFound | EmptyIdentity | TooManyBound | StoredCorrupt | Refused(why: PolicyError)

  datatype Tables = Tables(definitions: map<(Text, Text), seq<Rule>>, bindings: set<(Text, Text, Text)>)

  predicate ValidTenant(tenant: Text) { tenant != [] && |tenant| <= MAX_TENANT_LEN }

  function Bound(t: Tables, tenant: Text, identity: Text): set<Text> {
    set b | b in t.bindings && b.0 == tenant && b.1 == identity :: b.2
  }

  // ---- what the operations do to the tables ----

  function WithPolicy(t: Tables, tenant: Text, p: Policy): Tables {
    t.(definitions := t.definitions[(tenant, p.name) := p.rules])
  }

  // Bindings go with the definition they refer to.
  function WithoutPolicy(t: Tables, tenant: Text, name: Text): Tables {
    Tables(t.definitions - {(tenant, name)}, set b | b in t.bindings && (b.0, b.2) != (tenant, name))
  }

  predicate StoredAs(t: Tables, tenant: Text, name: Text) {
    (tenant, name) in t.definitions && WellFormed(Policy(name, t.definitions[(tenant, name)]))
  }

  class Manager {
    var definitions: map<(Text, Text), seq<Rule>>
    var bindings: set<(Text, Text, Text)>

    function State(): Tables
      reads this
    {
      Tables(definitions, bindings)
    }

    constructor ()
      ensures State() == Tables(map[], {})
    {
      definitions, bindings := map[], {};
    }

    method Put(tenant: Text, p: Policy) returns (error: Option<ManagerError>)
      modifies this
      ensures error.None? <==> 0 < |tenant| <= 64 && WellFormed(p)
      ensures error.Some? ==> if 0 < |tenant| <= 64 then error.value.Refused? else error.value == InvalidTenant
      ensures definitions == if error.None? then old(definitions)[(tenant, p.name) := p.rules] else old(definitions)
      ensures bindings == old(bindings)
      ensures State() == if error.None? then WithPolicy(old(State()), tenant, p) else old(State())
    {
      if !ValidTenant(tenant) {
        return Some(InvalidTenant);
      }
      var made := New(p.name, p.rules);
      if made.Failure? {
        return Some(Refused(made.error));
      }
      definitions := definitions[(tenant, p.name) := p.rules];
      return None;
    }

    method Remove(tenant: Text, name: Text) returns (error: Option<ManagerError>)
      modifies this
      ensures error.None? <==> 0 < |tenant| <= 64 && (tenant, name) in old(definitions)
      ensures definitions == if error.None? then old(definitions) - {(tenant, name)} else old(definitions)
      ensures forall b :: b in bindings <==> b in old(bindings) && !(error.None? && b.0 == tenant && b.2 == name)
      ensures error.Some? ==> error.value == if ValidTenant(tenant) then NotFound else InvalidTenant
      ensures State() == if error.None? then WithoutPolicy(old(State()), tenant, name) else old(State())
    {
      if !ValidTenant(tenant) {
        return Some(InvalidTenant);
      }
      if (tenant, name) !in definitions {
        return Some(NotFound);
      }
      definitions := definitions - {(tenant, name)};
      bindings := set b | b in bindings && (b.0, b.2) != (tenant, name);
      return None;
    }

    // A call that no other comes between.
    method Bind(tenant: Text, identity: Text, name: Text) returns (error: Option<ManagerError>)
      modifies this
      ensures error.None? <==> MayBind(old(State()), tenant, identity, name)
      ensures (error.None? <==>
          && 0 < |tenant| <= 64 && identity != []
          && (tenant, name) in old(definitions) && WellFormed(Policy(name, old(definitions)[(tenant, name)]))
          && |set b | b in old(bindings) && b.0 == tenant && b.1 == identity :: b.2| < 64)
      ensures (error.Some? ==>
        error.value ==
          if !(0 < |tenant| <= 64) then InvalidTenant else if identity == [] then EmptyIdentity
          else if (tenant, name) !in old(definitions) then NotFound
          else if !WellFormed(Policy(name, old(definitions)[(tenant, name)])) then StoredCorrupt else TooManyBound)
      ensures definitions == old(definitions)
      ensures bindings == old(bindings) + if error.None? then {(tenant, identity, name)} else {}
    {
      hide WellFormed;
      if !ValidTenant(tenant) {
        return Some(InvalidTenant);
      }
      if identity == [] {
        return Some(EmptyIdentity);
      }
      if (tenant, name) !in definitions {
        return Some(NotFound);
      }
      var stored := New(name, definitions[(tenant, name)]);
      if stored.Failure? {
        return Some(StoredCorrupt);
      }
      if |Bound(State(), tenant, identity)| >= MAX_BOUND {
        return Some(TooManyBound);
      }
      bindings := bindings + {(tenant, identity, name)};
      return None;
    }

    method Unbind(tenant: Text, identity: Text, name: Text) returns (error: Option<ManagerError>)
      modifies this
      ensures error == if 0 < |tenant| <= 64 then None else Some(InvalidTenant)
      ensures definitions == old(definitions)
      ensures bindings == old(bindings) - if error.None? then {(tenant, identity, name)} else {}
    {
      if !ValidTenant(tenant) {
        return Some(InvalidTenant);
      }
      bindings := bindings - {(tenant, identity, name)};
      return None;
    }

    // The policies bound to an identity, decoded row by row in the order of their names.
    method SetFor(tenant: Text, identity: Text) returns (r: Result<seq<Policy>, ManagerError>)
      ensures r.Success? <==> ValidTenant(tenant) && Decodes(State(), tenant, identity)
      ensures r.Success? ==> IsSetFor(State(), tenant, identity, r.value)
      ensures (r.Success? ==>
        && (forall i, j :: 0 <= i < j < |r.value| ==> Less(r.value[i].name, r.value[j].name))
        && (forall p: Policy :: p in r.value <==>
             && (tenant, identity, p.name) in bindings
             && (tenant, p.name) in definitions && definitions[(tenant, p.name)] == p.rules))
      ensures r.Failure? ==> r.error == if ValidTenant(tenant) then StoredCorrupt else InvalidTenant
    {
      hide WellFormed, Less, Fetched, Precede, StoredAs, IsLeast, ValidTenant;
      if !ValidTenant(tenant) {
        return Failure(InvalidTenant);
      }
      var rows := set name | name in Bound(State(), tenant, identity) && (tenant, name) in definitions;
      var remaining := rows;
      var policies: seq<Policy> := [];
      NothingFetched(State(), tenant, rows);
      while remaining != {}
        invariant remaining <= rows
        invariant Fetched(State(), tenant, rows - remaining, policies)
        invariant Precede(policies, remaining)
        decreases remaining
      {
        LeastExists(remaining);
        var name :| name in remaining && IsLeast(remaining, name);
        var made := New(name, definitions[(tenant, name)]);
        StoredWhenFormed(State(), tenant, name);
        if made.Failure? {
          return Failure(StoredCorrupt);
        }
        FetchOneMore(State(), tenant, rows - remaining, policies, remaining, name);
        assert rows - (remaining - {name}) == rows - remaining + {name};
        policies := policies + [made.value];
        remaining := remaining - {name};
      }
      FetchedAll(State(), tenant, identity, rows, policies);
      return Success(policies);
    }

    method Authorize(identityTenant: Text, identity: Text, tenant: Text, path: Text, requested: Capability)
        returns (r: Result<Decision, ManagerError>)
      ensures (identityTenant == [] || identityTenant != tenant ==>
          r == Success(Decision(false, [], [], OtherTenant)))
      ensures (identityTenant == tenant != [] ==>
          (r.Success? <==> ValidTenant(tenant) && Decodes(State(), tenant, identity)))
      ensures (identityTenant == tenant != [] && r.Success? ==>
          Authorizes(State(), tenant, identity, path, requested, r.value))
      ensures r.Failure? ==> r.error == if ValidTenant(tenant) then StoredCorrupt else InvalidTenant
    {
      hide Explains, Decodes;
      if identityTenant == [] || tenant == [] || identityTenant != tenant {
        return Success(Decision(false, [], [], OtherTenant));
      }
      var policies := SetFor(identityTenant, identity);
      if policies.Failure? {
        return Failure(policies.error);
      }
      var d := Evaluate(policies.value, path, requested);
      assert AuthorizesBy(State(), tenant, identity, path, requested, d, policies.value);
      return Success(d);
    }
  }

  predicate MayBind(t: Tables, tenant: Text, identity: Text, name: Text) {
    && ValidTenant(tenant) && identity != [] && StoredAs(t, tenant, name)
    && |Bound(t, tenant, identity)| < MAX_BOUND
  }

  predicate Decodes(t: Tables, tenant: Text, identity: Text) {
    forall name :: name in Bound(t, tenant, identity) && (tenant, name) in t.definitions ==> StoredAs(t, tenant, name)
  }

  predicate Ascending(policies: seq<Policy>) {
    forall i, j :: 0 <= i < j < |policies| ==> Less(policies[i].name, policies[j].name)
  }

  predicate HasName(policies: seq<Policy>, name: Text) { exists i :: 0 <= i < |policies| && policies[i].name == name }

  // The rows of these names, decoded in ascending order.
  predicate Fetched(t: Tables, tenant: Text, names: set<Text>, policies: seq<Policy>) {
    && Ascending(policies)
    && (forall name :: name in names ==> StoredAs(t, tenant, name) && HasName(policies, name))
    && (forall i :: 0 <= i < |policies| ==>
         && policies[i].name in names && (tenant, policies[i].name) in t.definitions
         && policies[i].rules == t.definitions[(tenant, policies[i].name)])
  }

  predicate Precede(policies: seq<Policy>, names: set<Text>) {
    forall i, n :: 0 <= i < |policies| && n in names ==> Less(policies[i].name, n)
  }

  lemma NothingFetched(t: Tables, tenant: Text, names: set<Text>)
    ensures Fetched(t, tenant, names - names, []) && Precede([], names)
  {}

  lemma StoredWhenFormed(t: Tables, tenant: Text, name: Text)
    requires (tenant, name) in t.definitions
    ensures StoredAs(t, tenant, name) <==> WellFormed(Policy(name, t.definitions[(tenant, name)]))
  {}

  lemma FetchOneMore(t: Tables, tenant: Text, done: set<Text>, policies: seq<Policy>, remaining: set<Text>, name: Text)
    requires Fetched(t, tenant, done, policies) && Precede(policies, remaining)
    requires name in remaining && IsLeast(remaining, name) && StoredAs(t, tenant, name)
    ensures var more := policies + [Policy(name, t.definitions[(tenant, name)])];
      Fetched(t, tenant, done + {name}, more) && Precede(more, remaining - {name})
  {
    hide WellFormed, Less, IsLeast;
    var p := Policy(name, t.definitions[(tenant, name)]);
    NameAppended(policies, p);
    AfterLeast(remaining, name);
  }

  lemma FetchedAll(t: Tables, tenant: Text, identity: Text, rows: set<Text>, policies: seq<Policy>)
    requires Fetched(t, tenant, rows - {}, policies)
    requires rows == set name | name in Bound(t, tenant, identity) && (tenant, name) in t.definitions
    ensures Decodes(t, tenant, identity) && IsSetFor(t, tenant, identity, policies)
  {
    hide WellFormed, Less, Bound;
  }

  lemma NameAppended(policies: seq<Policy>, p: Policy)
    ensures HasName(policies + [p], p.name)
    ensures forall name :: HasName(policies, name) ==> HasName(policies + [p], name)
  {
    assert (policies + [p])[|policies|] == p;
    forall name | HasName(policies, name) ensures HasName(policies + [p], name) {
      var i :| 0 <= i < |policies| && policies[i].name == name;
      assert (policies + [p])[i].name == name;
    }
  }

  predicate IsSetFor(t: Tables, tenant: Text, identity: Text, policies: seq<Policy>) {
    && Ascending(policies)
    && (forall i :: 0 <= i < |policies| ==>
         && policies[i].name in Bound(t, tenant, identity)
         && (tenant, policies[i].name) in t.definitions
         && policies[i].rules == t.definitions[(tenant, policies[i].name)])
    && (forall name :: name in Bound(t, tenant, identity) && (tenant, name) in t.definitions ==> HasName(policies, name))
  }

  ghost predicate AuthorizesBy(
    t: Tables, tenant: Text, identity: Text, path: Text, requested: Capability, d: Decision, policies: seq<Policy>) {
    IsSetFor(t, tenant, identity, policies) && Explains(Flat(policies), path, requested, d)
  }

  // The decision is the one the bound policies, in the order of their names, explain.
  ghost predicate Authorizes(t: Tables, tenant: Text, identity: Text, path: Text, requested: Capability, d: Decision) {
    exists policies :: AuthorizesBy(t, tenant, identity, path, requested, d, policies)
  }

  // ---- the answer is a function of the tables ----

  lemma {:induction false} AscendingUnique(ps: seq<Policy>, qs: seq<Policy>)
    requires Ascending(ps) && Ascending(qs) && (forall p :: p in ps <==> p in qs)
    ensures ps == qs
    decreases |ps|
  {
    hide Less;
    assert qs != [] ==> qs[0] in qs;
    if ps != [] {
      assert ps[0] in qs;
      assert qs != [] && qs[0] in ps;
      var i :| 0 <= i < |qs| && qs[i] == ps[0];
      var j :| 0 <= j < |ps| && ps[j] == qs[0];
      LessTotal(ps[0].name, qs[0].name);
      assert i == 0;
      assert ps == [ps[0]] + ps[1..] && qs == [qs[0]] + qs[1..];
      FirstIsFirst(ps);
      FirstIsFirst(qs);
      forall p ensures p in ps[1..] <==> p in qs[1..] {
        assert p in ps[1..] <==> p in ps && p != ps[0];
        assert p in qs[1..] <==> p in qs && p != qs[0];
      }
      AscendingUnique(ps[1..], qs[1..]);
    }
  }

  lemma FirstIsFirst(ps: seq<Policy>)
    requires ps != [] && Ascending(ps)
    ensures ps[0] !in ps[1..] && Ascending(ps[1..])
  {
    hide Less;
    LessTotal(ps[0].name, ps[0].name);
  }

  // Two answers to one request over the same tables are the same answer.
  lemma AuthorizedOnce(
      t: Tables, tenant: Text, identity: Text, path: Text, requested: Capability, d: Decision, e: Decision)
    requires Authorizes(t, tenant, identity, path, requested, d) && Authorizes(t, tenant, identity, path, requested, e)
    ensures d == e
  {
    hide Explains, IsSetFor;
    var ps :| AuthorizesBy(t, tenant, identity, path, requested, d, ps);
    var qs :| AuthorizesBy(t, tenant, identity, path, requested, e, qs);
    SetForUnique(t, tenant, identity, ps, qs);
    ExplainedOnce(Flat(ps), path, requested, d, e);
  }

  lemma SetForUnique(t: Tables, tenant: Text, identity: Text, ps: seq<Policy>, qs: seq<Policy>)
    requires IsSetFor(t, tenant, identity, ps) && IsSetFor(t, tenant, identity, qs)
    ensures ps == qs
  {
    hide Ascending, Bound;
    SetForMembers(t, tenant, identity, ps, qs);
    SetForMembers(t, tenant, identity, qs, ps);
    AscendingUnique(ps, qs);
  }

  lemma SetForMembers(t: Tables, tenant: Text, identity: Text, ps: seq<Policy>, qs: seq<Policy>)
    requires IsSetFor(t, tenant, identity, ps) && IsSetFor(t, tenant, identity, qs)
    ensures forall p :: p in ps ==> p in qs
  {
    hide Ascending, Bound;
    forall p | p in ps ensures p in qs {
      var i :| 0 <= i < |ps| && ps[i] == p;
      assert HasName(qs, p.name);
      var j :| 0 <= j < |qs| && qs[j].name == p.name;
      assert qs[j] == p;
    }
  }

  // ---- tenants do not reach one another ----

  function Share(t: Tables, tenant: Text): Tables {
    Tables(map k | k in t.definitions && k.0 == tenant :: t.definitions[k], set b | b in t.bindings && b.0 == tenant)
  }

  // An answer for a tenant depends on that tenant's rows alone.
  lemma AuthorizesFromShare(
      t: Tables, tenant: Text, identity: Text, path: Text, requested: Capability, d: Decision)
    ensures Authorizes(t, tenant, identity, path, requested, d)
      <==> Authorizes(Share(t, tenant), tenant, identity, path, requested, d)
  {
    hide Explains, Flat, Ascending, HasName;
    var s := Share(t, tenant);
    assert Bound(s, tenant, identity) == Bound(t, tenant, identity);
    forall policies
      ensures AuthorizesBy(t, tenant, identity, path, requested, d, policies)
        <==> AuthorizesBy(s, tenant, identity, path, requested, d, policies)
    {
      assert IsSetFor(t, tenant, identity, policies) <==> IsSetFor(s, tenant, identity, policies);
    }
  }
}
