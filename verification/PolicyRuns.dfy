/**
 Policies and bindings over whole runs. A call to bind is three statements: it looks
 the policy up, counts the bindings, and inserts one more; other calls may come
 between them.
 */
module PolicyRuns {
  import opened Encoding
  import opened Policies
  import opened PolicyManager

  // A call to bind that has looked its policy up and not yet inserted.
  datatype Call = Call(identity: Text, name: Text, counted: bool)

  datatype World = World(tables: Tables, calls: map<(Text, nat), Call>)

  datatype Op =
    | Putting(tenant: Text, policy: Policy)
    | Removing(tenant: Text, name: Text)
    | Looking(tenant: Text, call: nat, identity: Text, name: Text)
    | Counting(tenant: Text, call: nat)
    | Inserting(tenant: Text, call: nat)
    | Unbinding(tenant: Text, identity: Text, name: Text)

  // One statement; one that fails leaves the tables alone and ends its call.
  function Apply(w: World, op: Op): World {
    var t := w.tables;
    match op
    case Putting(tenant, p) =>
      if ValidTenant(tenant) && WellFormed(p) then w.(tables := WithPolicy(t, tenant, p)) else w
    case Removing(tenant, name) =>
      if ValidTenant(tenant) && (tenant, name) in t.definitions
      then w.(tables := WithoutPolicy(t, tenant, name)) else w
    case Looking(tenant, call, identity, name) =>
      if ValidTenant(tenant) && identity != [] && StoredAs(t, tenant, name) && (tenant, call) !in w.calls
      then w.(calls := w.calls[(tenant, call) := Call(identity, name, false)]) else w
    case Counting(tenant, call) =>
      if (tenant, call) !in w.calls || w.calls[(tenant, call)].counted then w
      else if |Bound(t, tenant, w.calls[(tenant, call)].identity)| < MAX_BOUND
      then w.(calls := w.calls[(tenant, call) := w.calls[(tenant, call)].(counted := true)])
      else w.(calls := w.calls - {(tenant, call)})
    case Inserting(tenant, call) =>
      if (tenant, call) !in w.calls || !w.calls[(tenant, call)].counted then w
      else
        var c := w.calls[(tenant, call)];
        World(if (tenant, c.name) in t.definitions then WithBinding(t, tenant, c.identity, c.name) else t,
              w.calls - {(tenant, call)})
    case Unbinding(tenant, identity, name) =>
      if ValidTenant(tenant) then w.(tables := t.(bindings := t.bindings - {(tenant, identity, name)})) else w
  }

  function WithBinding(t: Tables, tenant: Text, identity: Text, name: Text): Tables {
    t.(bindings := t.bindings + {(tenant, identity, name)})
  }

  function Run(w: World, ops: seq<Op>): World
    decreases |ops|
  {
    if ops == [] then w else Run(Apply(w, ops[0]), ops[1..])
  }

  // ---- in every run ----

  // Every stored policy validates, and every binding has its policy.
  ghost predicate Inv(t: Tables) {
    && (forall k :: k in t.definitions ==> StoredAs(t, k.0, k.1))
    && (forall b :: b in t.bindings ==> (b.0, b.2) in t.definitions)
  }

  lemma ApplyKeepsInv(w: World, op: Op)
    requires Inv(w.tables)
    ensures Inv(Apply(w, op).tables)
  {
    hide WellFormed, Bound;
    var t, t' := w.tables, Apply(w, op).tables;
    forall k | k in t'.definitions ensures StoredAs(t', k.0, k.1) {
      assert k in t.definitions ==> StoredAs(t, k.0, k.1);
    }
  }

  // From empty tables no stored policy is ever corrupt and no binding is left without
  // its policy, so a lookup for a valid tenant always gets its set.
  lemma {:induction false} RunKeepsInv(w: World, ops: seq<Op>)
    requires Inv(w.tables)
    ensures Inv(Run(w, ops).tables)
    ensures forall tenant, identity :: Decodes(Run(w, ops).tables, tenant, identity)
    decreases |ops|
  {
    hide Apply, StoredAs;
    if ops != [] {
      ApplyKeepsInv(w, ops[0]);
      RunKeepsInv(Apply(w, ops[0]), ops[1..]);
    }
  }

  // The three statements of a call that no other comes between are one call to bind.
  lemma UninterruptedBind(w: World, tenant: Text, call: nat, identity: Text, name: Text)
    requires (tenant, call) !in w.calls
    ensures var after := Apply(Apply(Apply(w, Looking(tenant, call, identity, name)), Counting(tenant, call)),
                          Inserting(tenant, call));
      && after.calls == w.calls
      && after.tables.definitions == w.tables.definitions
      && after.tables.bindings ==
           w.tables.bindings + if MayBind(w.tables, tenant, identity, name) then {(tenant, identity, name)} else {}
  {
    hide WellFormed, Bound;
    var looked := Apply(w, Looking(tenant, call, identity, name));
    var counted := Apply(looked, Counting(tenant, call));
    assert looked.tables == w.tables && counted.tables == w.tables;
  }

  // A policy that is removed is bound to nobody, a binding that is taken back is gone,
  // and everything else stays.
  lemma TakenBack(w: World, tenant: Text, identity: Text, name: Text)
    requires ValidTenant(tenant)
    ensures var removed := Apply(w, Removing(tenant, name)).tables;
      && (tenant, name) !in removed.definitions
      && ((tenant, name) in w.tables.definitions ==> name !in Bound(removed, tenant, identity))
      && (forall k :: k in w.tables.definitions && k != (tenant, name) ==>
           k in removed.definitions && removed.definitions[k] == w.tables.definitions[k])
      && (forall b :: b in w.tables.bindings && (b.0, b.2) != (tenant, name) ==> b in removed.bindings)
    ensures var unbound := Apply(w, Unbinding(tenant, identity, name)).tables;
      && name !in Bound(unbound, tenant, identity) && unbound.definitions == w.tables.definitions
      && (forall b :: b in w.tables.bindings && b != (tenant, identity, name) ==> b in unbound.bindings)
  {
    hide WellFormed;
  }

  // ---- how far the limit on bindings holds ----

  // The calls for an identity that have counted and are yet to insert.
  function Counted(w: World, tenant: Text, identity: Text): set<(Text, nat)> {
    set k | k in w.calls && k.0 == tenant && w.calls[k].identity == identity && w.calls[k].counted
  }

  // At no moment of the run are more than n of them under way.
  predicate Overlap(w: World, ops: seq<Op>, tenant: Text, identity: Text, n: nat)
    decreases |ops|
  {
    |Counted(w, tenant, identity)| <= n && (ops == [] || Overlap(Apply(w, ops[0]), ops[1..], tenant, identity, n))
  }

  lemma Smaller<T>(a: set<T>, b: set<T>)
    requires a <= b
    ensures |a| <= |b|
    decreases |a|
  {
    if a != {} {
      var x :| x in a;
      Smaller(a - {x}, b - {x});
    }
  }

  function Load(w: World, tenant: Text, identity: Text): nat {
    |Bound(w.tables, tenant, identity)| + |Counted(w, tenant, identity)|
  }

  lemma InsertBound(w: World, tenant: Text, call: nat, identity: Text)
    ensures |Bound(Apply(w, Inserting(tenant, call)).tables, tenant, identity)|
      <= |Bound(w.tables, tenant, identity)| + if (tenant, call) in Counted(w, tenant, identity) then 1 else 0
  {
    var after := Bound(Apply(w, Inserting(tenant, call)).tables, tenant, identity);
    var before := Bound(w.tables, tenant, identity);
    if (tenant, call) in Counted(w, tenant, identity) {
      Smaller(after, before + {w.calls[(tenant, call)].name});
    } else {
      Smaller(after, before);
    }
  }

  lemma InsertCounted(w: World, tenant: Text, call: nat, identity: Text)
    ensures Counted(Apply(w, Inserting(tenant, call)), tenant, identity) == Counted(w, tenant, identity) - {(tenant, call)}
  {
    hide Bound;
  }

  lemma InsertLoad(w: World, tenant: Text, call: nat, identity: Text)
    ensures Load(Apply(w, Inserting(tenant, call)), tenant, identity) <= Load(w, tenant, identity)
  {
    hide Bound, Counted, Apply;
    InsertBound(w, tenant, call, identity);
    InsertCounted(w, tenant, call, identity);
  }

  // Nothing but a count adds to the load, and a count only below the limit.
  lemma ApplyLoad(w: World, op: Op, tenant: Text, identity: Text)
    ensures Load(Apply(w, op), tenant, identity) <= Load(w, tenant, identity)
      || (|Bound(Apply(w, op).tables, tenant, identity)| < MAX_BOUND && op.Counting?)
  {
    hide WellFormed, StoredAs;
    var w' := Apply(w, op);
    if op.Inserting? && op.tenant == tenant {
      InsertLoad(w, tenant, op.call, identity);
    } else if !op.Counting? {
      Smaller(Bound(w'.tables, tenant, identity), Bound(w.tables, tenant, identity));
      Smaller(Counted(w', tenant, identity), Counted(w, tenant, identity));
    } else {
      CountLoad(w, op, tenant, identity);
    }
  }

  lemma CountLoad(w: World, op: Op, tenant: Text, identity: Text)
    requires op.Counting?
    ensures Load(Apply(w, op), tenant, identity) <= Load(w, tenant, identity)
      || |Bound(Apply(w, op).tables, tenant, identity)| < MAX_BOUND
  {
    hide Bound;
    var w' := Apply(w, op);
    var k := (op.tenant, op.call);
    if !(k in w.calls && k.0 == tenant && w.calls[k].identity == identity) {
      Smaller(Counted(w', tenant, identity), Counted(w, tenant, identity));
    } else if |Bound(w.tables, tenant, identity)| >= MAX_BOUND {
      Smaller(Counted(w', tenant, identity), Counted(w, tenant, identity));
    }
  }

  // The most an identity can be bound to while at most n calls overlap.
  function Reach(n: nat): nat { if n == 0 then MAX_BOUND else MAX_BOUND - 1 + n }

  // While at most n calls overlap between their count and their insertion, nobody is
  // bound to more than n - 1 policies beyond the limit.
  lemma {:induction false} BoundWithin(w: World, ops: seq<Op>, tenant: Text, identity: Text, n: nat)
    requires Overlap(w, ops, tenant, identity, n) && Load(w, tenant, identity) <= Reach(n)
    ensures |Bound(Run(w, ops).tables, tenant, identity)| <= Reach(n)
    decreases |ops|
  {
    hide Apply, Bound, Counted;
    if ops != [] {
      ApplyLoad(w, ops[0], tenant, identity);
      BoundWithin(Apply(w, ops[0]), ops[1..], tenant, identity, n);
    }
  }

  // ---- two calls that overlap ----

  const EARLIER := 0
  const LATER := 1

  // Both look their policies up and count before either inserts.
  function BothBind(tenant: Text, identity: Text, p: Text, q: Text): seq<Op> {
    [Looking(tenant, EARLIER, identity, p)] + ([Looking(tenant, LATER, identity, q)]
    + ([Counting(tenant, EARLIER)] + ([Counting(tenant, LATER)]
    + ([Inserting(tenant, EARLIER)] + ([Inserting(tenant, LATER)] + [])))))
  }

  lemma RunFirst(w: World, op: Op, rest: seq<Op>, tenant: Text, identity: Text, n: nat)
    ensures Run(w, [op] + rest) == Run(Apply(w, op), rest)
    ensures Overlap(w, [op] + rest, tenant, identity, n) <==>
      |Counted(w, tenant, identity)| <= n && Overlap(Apply(w, op), rest, tenant, identity, n)
  {
    hide Apply, Counted;
    assert ([op] + rest)[1..] == rest;
  }

  lemma FewCounted(w: World, tenant: Text, identity: Text)
    requires w.calls.Keys <= {(tenant, EARLIER), (tenant, LATER)}
    ensures |Counted(w, tenant, identity)| <= 2
  {
    Smaller(Counted(w, tenant, identity), {(tenant, EARLIER), (tenant, LATER)});
  }

  // One policy below the limit, two overlapping calls end one policy above it.
  lemma OverlappingBindsExceed(w: World, tenant: Text, identity: Text, p: Text, q: Text)
    requires w.calls == map[] && ValidTenant(tenant) && identity != [] && p != q
    requires StoredAs(w.tables, tenant, p) && StoredAs(w.tables, tenant, q)
    requires p !in Bound(w.tables, tenant, identity) && q !in Bound(w.tables, tenant, identity)
    requires |Bound(w.tables, tenant, identity)| == MAX_BOUND - 1
    ensures Overlap(w, BothBind(tenant, identity, p, q), tenant, identity, 2)
    ensures |Bound(Run(w, BothBind(tenant, identity, p, q)).tables, tenant, identity)| == MAX_BOUND + 1
  {
    hide WellFormed, Overlap, Run;
    var t := w.tables;
    var c, d := (tenant, EARLIER), (tenant, LATER);
    var w1 := World(t, map[c := Call(identity, p, false)]);
    var w2 := World(t, map[c := Call(identity, p, false), d := Call(identity, q, false)]);
    var w3 := World(t, map[c := Call(identity, p, true), d := Call(identity, q, false)]);
    var w4 := World(t, map[c := Call(identity, p, true), d := Call(identity, q, true)]);
    var w5 := World(WithBinding(t, tenant, identity, p), map[d := Call(identity, q, true)]);
    var w6 := World(WithBinding(w5.tables, tenant, identity, q), map[]);
    BothBindSteps(w, tenant, identity, p, q);
    BothBindRuns(w, w1, w2, w3, w4, w5, w6, tenant, identity, p, q);
    BoundTwice(t, tenant, identity, p, q);
  }

  lemma BoundTwice(t: Tables, tenant: Text, identity: Text, p: Text, q: Text)
    requires p != q && p !in Bound(t, tenant, identity) && q !in Bound(t, tenant, identity)
    ensures |Bound(WithBinding(WithBinding(t, tenant, identity, p), tenant, identity, q), tenant, identity)|
      == |Bound(t, tenant, identity)| + 2
  {
    assert Bound(WithBinding(t, tenant, identity, p), tenant, identity) == Bound(t, tenant, identity) + {p};
    assert Bound(WithBinding(WithBinding(t, tenant, identity, p), tenant, identity, q), tenant, identity)
        == Bound(t, tenant, identity) + {p} + {q};
  }

  lemma BothBindSteps(w: World, tenant: Text, identity: Text, p: Text, q: Text)
    requires w.calls == map[] && ValidTenant(tenant) && identity != [] && p != q
    requires StoredAs(w.tables, tenant, p) && StoredAs(w.tables, tenant, q)
    requires |Bound(w.tables, tenant, identity)| < MAX_BOUND
    ensures var t, c, d := w.tables, (tenant, EARLIER), (tenant, LATER);
      var w1 := World(t, map[c := Call(identity, p, false)]);
      var w2 := World(t, map[c := Call(identity, p, false), d := Call(identity, q, false)]);
      var w3 := World(t, map[c := Call(identity, p, true), d := Call(identity, q, false)]);
      var w4 := World(t, map[c := Call(identity, p, true), d := Call(identity, q, true)]);
      var w5 := World(WithBinding(t, tenant, identity, p), map[d := Call(identity, q, true)]);
      var w6 := World(WithBinding(w5.tables, tenant, identity, q), map[]);
      && Apply(w, Looking(tenant, EARLIER, identity, p)) == w1
      && Apply(w1, Looking(tenant, LATER, identity, q)) == w2
      && Apply(w2, Counting(tenant, EARLIER)) == w3
      && Apply(w3, Counting(tenant, LATER)) == w4
      && Apply(w4, Inserting(tenant, EARLIER)) == w5
      && Apply(w5, Inserting(tenant, LATER)) == w6
  {
    hide WellFormed, Bound;
  }

  lemma BothBindRuns(w: World, w1: World, w2: World, w3: World, w4: World, w5: World, w6: World,
                     tenant: Text, identity: Text, p: Text, q: Text)
    requires w.calls == map[] && w6.calls == map[]
    requires Apply(w, Looking(tenant, EARLIER, identity, p)) == w1
    requires Apply(w1, Looking(tenant, LATER, identity, q)) == w2
    requires Apply(w2, Counting(tenant, EARLIER)) == w3 && Apply(w3, Counting(tenant, LATER)) == w4
    requires Apply(w4, Inserting(tenant, EARLIER)) == w5 && Apply(w5, Inserting(tenant, LATER)) == w6
    requires forall k :: k in {w1, w2, w3, w4, w5} ==> k.calls.Keys <= {(tenant, EARLIER), (tenant, LATER)}
    ensures Run(w, BothBind(tenant, identity, p, q)) == w6
    ensures Overlap(w, BothBind(tenant, identity, p, q), tenant, identity, 2)
  {
    hide Apply, Counted;
    FewCounted(w, tenant, identity);
    FewCounted(w1, tenant, identity);
    FewCounted(w2, tenant, identity);
    FewCounted(w3, tenant, identity);
    FewCounted(w4, tenant, identity);
    FewCounted(w5, tenant, identity);
    FewCounted(w6, tenant, identity);
    hide Run, Overlap;
    var sixth := [Inserting(tenant, LATER)] + [];
    var fifth := [Inserting(tenant, EARLIER)] + sixth;
    var fourth := [Counting(tenant, LATER)] + fifth;
    var third := [Counting(tenant, EARLIER)] + fourth;
    var second := [Looking(tenant, LATER, identity, q)] + third;
    RunFirst(w, Looking(tenant, EARLIER, identity, p), second, tenant, identity, 2);
    RunFirst(w1, Looking(tenant, LATER, identity, q), third, tenant, identity, 2);
    RunFirst(w2, Counting(tenant, EARLIER), fourth, tenant, identity, 2);
    RunFirst(w3, Counting(tenant, LATER), fifth, tenant, identity, 2);
    RunFirst(w4, Inserting(tenant, EARLIER), sixth, tenant, identity, 2);
    RunFirst(w5, Inserting(tenant, LATER), [], tenant, identity, 2);
    NoOps(w6, tenant, identity, 2);
  }

  lemma NoOps(w: World, tenant: Text, identity: Text, n: nat)
    ensures Run(w, []) == w && (Overlap(w, [], tenant, identity, n) <==> |Counted(w, tenant, identity)| <= n)
  {}

  // ---- exactly when the limit holds ----

  // Runs from sound tables in which nobody is beyond the limit and no call is under way.
  ghost predicate LimitHolds(n: nat) {
    forall w: World, ops: seq<Op>, tenant: Text, identity: Text ::
      Inv(w.tables) && w.calls == map[] && |Bound(w.tables, tenant, identity)| <= MAX_BOUND
      && Overlap(w, ops, tenant, identity, n) ==>
        |Bound(Run(w, ops).tables, tenant, identity)| <= MAX_BOUND
  }

  lemma OverlapMore(w: World, ops: seq<Op>, tenant: Text, identity: Text, m: nat, n: nat)
    requires Overlap(w, ops, tenant, identity, m) && m <= n
    ensures Overlap(w, ops, tenant, identity, n)
    decreases |ops|
  {
    hide Apply, Counted;
    if ops != [] {
      OverlapMore(Apply(w, ops[0]), ops[1..], tenant, identity, m, n);
    }
  }

  const TENANT: Text := [116]
  const IDENTITY: Text := [105]
  const RULES: seq<Rule> := [Rule([STAR], [Read])]

  function Named(i: nat): Text
    requires i < 256
  {
    [i as byte]
  }

  function Defined(): set<(Text, Text)> { set i | 0 <= i < MAX_BOUND + 1 :: (TENANT, Named(i)) }

  // Two more policies than the one identity is bound to, one below its limit.
  function NearlyFull(): World {
    World(Tables(map k | k in Defined() :: RULES,
                 set i | 0 <= i < MAX_BOUND - 1 :: (TENANT, IDENTITY, Named(i))),
          map[])
  }

  lemma {:induction false} NamesDistinct(n: nat)
    requires n <= 256
    ensures |set i | 0 <= i < n :: Named(i)| == n
  {
    if n > 0 {
      NamesDistinct(n - 1);
      var before := set i | 0 <= i < n - 1 :: Named(i);
      assert (set i | 0 <= i < n :: Named(i)) == before + {Named(n - 1)};
      assert Named(n - 1) !in before;
    }
  }

  lemma NamedWellFormed(i: nat)
    requires i < 256
    ensures WellFormed(Policy(Named(i), RULES))
  {
    assert Stem([STAR]) == [];
  }

  lemma NearlyFullIsSound()
    ensures Inv(NearlyFull().tables)
    ensures Bound(NearlyFull().tables, TENANT, IDENTITY) == set i | 0 <= i < MAX_BOUND - 1 :: Named(i)
    ensures StoredAs(NearlyFull().tables, TENANT, Named(MAX_BOUND - 1))
    ensures StoredAs(NearlyFull().tables, TENANT, Named(MAX_BOUND))
  {
    hide WellFormed;
    var t := NearlyFull().tables;
    forall i | 0 <= i < MAX_BOUND - 1 ensures Named(i) in Bound(t, TENANT, IDENTITY) {
      assert (TENANT, IDENTITY, Named(i)) in t.bindings;
    }
    forall i | 0 <= i < MAX_BOUND + 1 ensures StoredAs(t, TENANT, Named(i)) {
      NamedWellFormed(i);
      assert (TENANT, Named(i)) in t.definitions;
    }
  }

  // Nobody is ever bound beyond the limit if and only if no two calls for an identity
  // overlap between their counts and their insertions.
  lemma LimitHoldsExactly(n: nat)
    ensures LimitHolds(n) <==> n <= 1
  {
    hide Overlap, Run, Inv, Bound, StoredAs, NearlyFull;
    if n <= 1 {
      forall w: World, ops: seq<Op>, tenant: Text, identity: Text
        | Inv(w.tables) && w.calls == map[] && |Bound(w.tables, tenant, identity)| <= MAX_BOUND
          && Overlap(w, ops, tenant, identity, n)
        ensures |Bound(Run(w, ops).tables, tenant, identity)| <= MAX_BOUND
      {
        assert Counted(w, tenant, identity) == {};
        BoundWithin(w, ops, tenant, identity, n);
      }
    } else {
      var w, p, q := NearlyFull(), Named(MAX_BOUND - 1), Named(MAX_BOUND);
      NearlyFullIsSound();
      NamesDistinct(MAX_BOUND - 1);
      NoCallsYet();
      OverlappingBindsExceed(w, TENANT, IDENTITY, p, q);
      OverlapMore(w, BothBind(TENANT, IDENTITY, p, q), TENANT, IDENTITY, 2, n);
    }
  }

  lemma NoCallsYet()
    ensures NearlyFull().calls == map[]
  {}

  // ---- tenants do not reach one another ----

  predicate OfTenant(op: Op, tenant: Text) { op.tenant == tenant }

  function ShareOf(w: World, tenant: Text): World {
    World(Share(w.tables, tenant), map k | k in w.calls && k.0 == tenant :: w.calls[k])
  }

  lemma ShareBound(t: Tables, tenant: Text, identity: Text)
    ensures Bound(Share(t, tenant), tenant, identity) == Bound(t, tenant, identity)
  {}

  // What an operation does to a tenant's rows, it does from that tenant's rows alone.
  lemma ApplyShares(w: World, op: Op, tenant: Text)
    ensures ShareOf(Apply(w, op), tenant)
      == if OfTenant(op, tenant) then Apply(ShareOf(w, tenant), op) else ShareOf(w, tenant)
  {
    if OfTenant(op, tenant) {
      OwnShares(w, op);
    } else {
      OtherShares(w, op, tenant);
    }
  }

  lemma OwnShares(w: World, op: Op)
    ensures ShareOf(Apply(w, op), op.tenant) == Apply(ShareOf(w, op.tenant), op)
  {
    hide Apply, ShareOf;
    match op
    case Looking(_, _, _, _) => LookShares(w, op);
    case Counting(_, _) => CountShares(w, op);
    case Inserting(tenant, call) => InsertShares(w, tenant, call);
    case _ => TableShares(w, op);
  }

  lemma TableShares(w: World, op: Op)
    requires op.Putting? || op.Removing? || op.Unbinding?
    ensures ShareOf(Apply(w, op), op.tenant) == Apply(ShareOf(w, op.tenant), op)
  {
    hide WellFormed, Bound;
  }

  lemma LookShares(w: World, op: Op)
    requires op.Looking?
    ensures ShareOf(Apply(w, op), op.tenant) == Apply(ShareOf(w, op.tenant), op)
  {
    hide WellFormed, Bound;
  }

  lemma CountShares(w: World, op: Op)
    requires op.Counting?
    ensures ShareOf(Apply(w, op), op.tenant) == Apply(ShareOf(w, op.tenant), op)
  {
    hide Bound, Share;
    if (op.tenant, op.call) in w.calls {
      ShareBound(w.tables, op.tenant, w.calls[(op.tenant, op.call)].identity);
    }
  }

  lemma InsertShares(w: World, tenant: Text, call: nat)
    ensures ShareOf(Apply(w, Inserting(tenant, call)), tenant) == Apply(ShareOf(w, tenant), Inserting(tenant, call))
  {
    hide WellFormed, Bound;
  }

  lemma OtherShares(w: World, op: Op, tenant: Text)
    requires op.tenant != tenant
    ensures ShareOf(Apply(w, op), tenant) == ShareOf(w, tenant)
  {
    hide WellFormed, Bound;
  }

  function Only(ops: seq<Op>, tenant: Text): seq<Op> {
    if ops == [] then [] else (if OfTenant(ops[0], tenant) then [ops[0]] else []) + Only(ops[1..], tenant)
  }

  // The calls of other tenants might as well not have been made.
  lemma {:induction false} OtherTenantsUnseen(w: World, ops: seq<Op>, tenant: Text)
    ensures ShareOf(Run(w, ops), tenant) == Run(ShareOf(w, tenant), Only(ops, tenant))
    decreases |ops|
  {
    hide Apply, ShareOf;
    if ops != [] {
      ApplyShares(w, ops[0], tenant);
      OtherTenantsUnseen(Apply(w, ops[0]), ops[1..], tenant);
      if OfTenant(ops[0], tenant) {
        assert Only(ops, tenant)[1..] == Only(ops[1..], tenant);
      } else {
        assert Only(ops, tenant) == Only(ops[1..], tenant);
      }
    }
  }
}
