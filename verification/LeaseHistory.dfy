/** The lease table over whole runs, and what a prefix scan finds. */
module LeaseHistory {
  import opened Wrappers
  import opened Encoding
  import opened Limits
  import opened Ordering
  import opened Paths
  import opened Utf8
  import opened Lease

  // ---- issuing ----

  // There is one unrevoked row for the holding, it is active, and it runs to the
  // later of the new expiry and any it already had.
  lemma IssueKeepsTheLater(rows: Rows, h: Holding, ttl: int, now: int, id: Text)
    requires OneLive(rows) && ValidTtl(ttl) && (Held(rows, h, now) || id !in rows)
    ensures var rows' := Issued(rows, h, ttl, now, id);
      && OneLive(rows')
      && Held(rows', h, now)
      && (forall i :: LiveFor(rows', i, h) ==> rows'[i].expires >= now + ttl)
      && (forall i, j :: ActiveFor(rows, i, h, now) && LiveFor(rows', j, h) ==>
           i == j && rows'[j].expires == Max(rows[i].expires, now + ttl) && rows'[j].issued == rows[i].issued)
      && (forall j :: !Held(rows, h, now) && LiveFor(rows', j, h) ==> j == id && rows'[j] == NewRow(h, ttl, now))
  {
    var rows' := Issued(rows, h, ttl, now, id);
    if Held(rows, h, now) {
      var i :| ActiveFor(rows, i, h, now);
      assert ActiveFor(rows', i, h, now);
      forall j, g ensures LiveFor(rows', j, g) <==> LiveFor(rows, j, g) {}
    } else {
      assert ActiveFor(rows', id, h, now);
      forall i, g ensures LiveFor(rows', i, g) <==> (i == id && g == h) || (i != id && LiveFor(rows, i, g) && g != h) {}
    }
  }

  // ---- whole runs ----

  // Renewing reads a row and later extends it by its id, so the two are not one step.
  datatype Op =
    | Issuing(h: Holding, ttl: int, now: int, id: Text)
    | Extending(id: Text, expiry: int)
    | Revoking(id: Text, now: int)
    | RevokingPrefix(tenant: Text, prefix: Text, now: int)
    | RevokingIdentity(tenant: Text, identity: Text, now: int)
    | Sweeping(gone: set<Text>, batch: int, now: int)

  ghost function Apply(rows: Rows, op: Op): Rows {
    match op
    case Issuing(h, ttl, now, id) =>
      if IssueFault(h, ttl).None? && (Held(rows, h, now) || id !in rows) then Issued(rows, h, ttl, now, id) else rows
    case Extending(id, expiry) =>
      if id in rows && rows[id].revoked.None? then rows[id := rows[id].(expires := expiry)] else rows
    case Revoking(id, now) => RevokedWhere(rows, {id}, now)
    case RevokingPrefix(tenant, prefix, now) => RevokedWhere(rows, Under(rows, tenant, prefix), now)
    case RevokingIdentity(tenant, identity, now) => RevokedWhere(rows, HeldBy(rows, tenant, identity), now)
    case Sweeping(gone, batch, now) => if batch >= 1 && SweepTakes(rows, gone, batch, now) then rows - gone else rows
  }

  ghost function Run(rows: Rows, ops: seq<Op>): Rows
    decreases |ops|
  {
    if ops == [] then rows else Run(Apply(rows, ops[0]), ops[1..])
  }

  function Used(used: set<Text>, op: Op): set<Text> { if op.Issuing? then used + {op.id} else used }

  // Random lease ids do not come up twice.
  predicate FreshIds(used: set<Text>, ops: seq<Op>)
    decreases |ops|
  {
    ops == [] || ((ops[0].Issuing? ==> ops[0].id !in used) && FreshIds(Used(used, ops[0]), ops[1..]))
  }

  // A row keeps its holding and the time it was issued, and a revocation its time.
  predicate SameRow(a: Row, b: Row) {
    b.holding == a.holding && b.issued == a.issued && (a.revoked.Some? ==> b == a)
  }

  predicate Later(rows: Rows, rows': Rows, used: set<Text>) {
    forall id :: id in used && id in rows' ==> id in rows && SameRow(rows[id], rows'[id])
  }

  lemma ApplyKeepsOneLive(rows: Rows, op: Op)
    requires OneLive(rows)
    ensures OneLive(Apply(rows, op))
  {
    hide IssueFault, Under, HeldBy, SweepTakes, Issued;
    match op
    case Issuing(h, ttl, now, id) =>
      if IssueFault(h, ttl).None? && (Held(rows, h, now) || id !in rows) {
        IssueFaultTtl(h, ttl);
        IssueKeepsTheLater(rows, h, ttl, now, id);
      }
    case Extending(id, expiry) =>
      forall i, h ensures LiveFor(Apply(rows, op), i, h) <==> LiveFor(rows, i, h) {}
    case Sweeping(gone, batch, now) =>
      forall i, h ensures LiveFor(Apply(rows, op), i, h) ==> LiveFor(rows, i, h) {}
    case Revoking(id, now) => RevokingKeepsOneLive(rows, {id}, now);
    case RevokingPrefix(tenant, prefix, now) => RevokingKeepsOneLive(rows, Under(rows, tenant, prefix), now);
    case RevokingIdentity(tenant, identity, now) => RevokingKeepsOneLive(rows, HeldBy(rows, tenant, identity), now);
  }

  lemma IssueFaultTtl(h: Holding, ttl: int)
    requires IssueFault(h, ttl).None?
    ensures ValidTtl(ttl)
  {}

  lemma RevokingKeepsOneLive(rows: Rows, hit: set<Text>, now: int)
    requires OneLive(rows)
    ensures OneLive(RevokedWhere(rows, hit, now))
  {
    forall i, h ensures LiveFor(RevokedWhere(rows, hit, now), i, h) ==> LiveFor(rows, i, h) {}
  }

  lemma ApplyLater(rows: Rows, op: Op, used: set<Text>)
    requires rows.Keys <= used && FreshIds(used, [op])
    ensures Later(rows, Apply(rows, op), used) && Apply(rows, op).Keys <= Used(used, op)
  {
    hide IssueFault, Under, HeldBy, SweepTakes;
  }

  lemma LaterTransitive(a: Rows, b: Rows, c: Rows, used: set<Text>, more: set<Text>)
    requires Later(a, b, used) && Later(b, c, more) && used <= more
    ensures Later(a, c, used)
  {}

  // From an empty table the unique index is never violated, and a revoked row is
  // from then on either as it was or swept.
  lemma {:induction false} RunKeeps(rows: Rows, ops: seq<Op>, used: set<Text>)
    requires OneLive(rows) && rows.Keys <= used && FreshIds(used, ops)
    ensures OneLive(Run(rows, ops)) && Later(rows, Run(rows, ops), used)
    decreases |ops|
  {
    hide Apply, OneLive, Later;
    if ops == [] {
      LaterReflexive(rows, used);
    } else {
      var next := Apply(rows, ops[0]);
      assert FreshIds(used, [ops[0]]);
      ApplyKeepsOneLive(rows, ops[0]);
      ApplyLater(rows, ops[0], used);
      RunKeeps(next, ops[1..], Used(used, ops[0]));
      LaterTransitive(rows, next, Run(rows, ops), used, Used(used, ops[0]));
    }
  }

  lemma LaterReflexive(rows: Rows, used: set<Text>)
    requires rows.Keys <= used
    ensures Later(rows, rows, used)
  {}

  // Whatever happens afterwards, a revoked lease is never active again.
  lemma RevokedNeverActive(rows: Rows, ops: seq<Op>, used: set<Text>, id: Text, h: Holding, now: int)
    requires OneLive(rows) && rows.Keys <= used && FreshIds(used, ops) && id in rows && rows[id].revoked.Some?
    ensures !ActiveFor(Run(rows, ops), id, h, now)
  {
    RunKeeps(rows, ops, used);
  }

  // What a revocation of a prefix, of an identity or of one lease covers is never active
  // again, whatever comes after it.
  lemma RevocationLasts(rows: Rows, op: Op, ops: seq<Op>, used: set<Text>, id: Text, h: Holding, at: int)
    requires OneLive(rows) && rows.Keys <= used && FreshIds(used, ops) && id in rows
    requires var holding := rows[id].holding;
      || (op.RevokingPrefix? && holding.tenant == op.tenant && InScan(op.prefix, holding.path))
      || (op.RevokingIdentity? && holding.tenant == op.tenant && holding.identity == op.identity)
      || (op.Revoking? && op.id == id)
    ensures !ActiveFor(Run(Apply(rows, op), ops), id, h, at)
  {
    hide InScan, OneLive, FreshIds;
    ApplyKeepsOneLive(rows, op);
    var rows' := Apply(rows, op);
    assert rows'.Keys == rows.Keys && rows'[id].revoked.Some?;
    RevokedNeverActive(rows', ops, used, id, h, at);
  }

  // ---- sweeping ----

  // A sweep takes no active row, and so many sweeps of a batch leave what is over.
  ghost function Swept(rows: Rows, takes: seq<set<Text>>): Rows {
    if takes == [] then rows else Swept(rows - takes[0], takes[1..])
  }

  ghost predicate Sweeps(rows: Rows, takes: seq<set<Text>>, batch: int, now: int) {
    takes == [] || (SweepTakes(rows, takes[0], batch, now) && Sweeps(rows - takes[0], takes[1..], batch, now))
  }

  lemma SweepOnce(rows: Rows, gone: set<Text>, batch: int, now: int)
    requires batch >= 1 && SweepTakes(rows, gone, batch, now)
    ensures |gone| <= batch && forall id :: id in gone ==> id in rows && rows[id].expires <= now
    ensures Due(rows - gone, now - RETENTION) == Due(rows, now - RETENTION) - gone
    ensures |Due(rows - gone, now - RETENTION)| == |Due(rows, now - RETENTION)| - |gone|
  {
    var due := Due(rows, now - RETENTION);
    assert Due(rows - gone, now - RETENTION) == due - gone;
    assert due == (due - gone) + gone;
    Apart(due - gone, gone);
  }

  lemma {:induction false} SweepsDrain(rows: Rows, takes: seq<set<Text>>, batch: int, now: int)
    requires batch >= 1 && Sweeps(rows, takes, batch, now)
    ensures |Due(Swept(rows, takes), now - RETENTION)| == Max(0, |Due(rows, now - RETENTION)| - |takes| * batch)
    ensures forall id :: id in rows && rows[id].expires > now - RETENTION ==>
      id in Swept(rows, takes) && Swept(rows, takes)[id] == rows[id]
    decreases |takes|
  {
    hide Due;
    if takes != [] {
      SweepOnce(rows, takes[0], batch, now);
      SweepsDrain(rows - takes[0], takes[1..], batch, now);
      assert |takes| * batch == |takes[1..]| * batch + batch;
      DueMeaning(rows, now - RETENTION);
    }
  }

  lemma DueMeaning(rows: Rows, cutoff: int)
    ensures forall id :: id in Due(rows, cutoff) <==> id in rows && rows[id].expires <= cutoff
  {}

  // The steps of a run that these sweeps are.
  function Sweeping(takes: seq<set<Text>>, batch: int, now: int): seq<Op> {
    if takes == [] then [] else [Op.Sweeping(takes[0], batch, now)] + Sweeping(takes[1..], batch, now)
  }

  lemma {:induction false} SweepsAreSteps(rows: Rows, takes: seq<set<Text>>, batch: int, now: int)
    requires batch >= 1 && Sweeps(rows, takes, batch, now)
    ensures Run(rows, Sweeping(takes, batch, now)) == Swept(rows, takes)
    decreases |takes|
  {
    hide SweepTakes, Issued;
    if takes != [] {
      SweepsAreSteps(rows - takes[0], takes[1..], batch, now);
      assert Sweeping(takes, batch, now)[1..] == Sweeping(takes[1..], batch, now);
    }
  }

  // An extended lease is active until its new expiry, be that sooner or later than the
  // old one, and no other row is touched; a revoked or unknown one is not revived.
  lemma ExtendedUntil(rows: Rows, id: Text, expiry: int, now: int)
    ensures var rows' := Apply(rows, Extending(id, expiry));
      && rows'.Keys == rows.Keys
      && (forall i :: i in rows && i != id ==> rows'[i] == rows[i])
      && (id in rows && rows[id].revoked.None? ==> (ActiveFor(rows', id, rows[id].holding, now) <==> now < expiry))
      && (id in rows && rows[id].revoked.Some? ==> rows' == rows)
  {}

  // ---- what a prefix scan finds ----

  // The scan finds a path exactly when it has the prefix and what follows sorts,
  // byte by byte, below U+FFFF.
  lemma {:induction false} ScanExactly(prefix: Text, path: Text)
    ensures InScan(prefix, path) <==> HasPrefix(path, prefix) && Less(path[|prefix|..], CEILING)
    decreases |prefix|
  {
    if prefix == [] {
      assert path[0..] == path && prefix + CEILING == CEILING;
    } else if path != [] {
      PrefixHead(path, prefix);
      if path[0] == prefix[0] {
        ScanExactly(prefix[1..], path[1..]);
        assert (prefix + CEILING)[1..] == prefix[1..] + CEILING;
        assert path == [path[0]] + path[1..] && prefix == [prefix[0]] + prefix[1..];
        assert HasPrefix(path, prefix) ==> path[1..][..|prefix| - 1] == path[..|prefix|][1..];
        assert HasPrefix(path, prefix) ==> path[1..][|prefix| - 1..] == path[|prefix|..];
        assert HasPrefix(path[1..], prefix[1..]) ==> path[..|prefix|] == [path[0]] + path[1..][..|prefix| - 1];
      }
    }
  }

  // In valid UTF-8 without U+FFFF, that is: what follows does not begin with a
  // character beyond it.
  lemma BelowCeilingExactly(rest: Text)
    requires (rest != [] && rest[0] == 0xEF ==> ValidUtf8(rest)) && !HasPrefix(rest, CEILING)
    ensures Less(rest, CEILING) <==> rest == [] || rest[0] < 0xF0
  {
    if rest != [] && rest[0] == 0xEF {
      UnfoldValid(rest);
      assert |rest| >= 3 && rest[1] <= 0xBF && rest[2] <= 0xBF;
      assert rest[..3] == [rest[0], rest[1], rest[2]];
      var r1, c1 := rest[1..], CEILING[1..];
      var r2, c2 := r1[1..], c1[1..];
      assert c1 == [0xBF, 0xBF] && c2 == [0xBF];
      assert Less(rest, CEILING) == Less(r1, c1);
      assert r1[0] == c1[0] ==> Less(r1, c1) == Less(r2, c2);
    }
  }

  // A lease under the prefix escapes the revocation exactly when what follows the
  // prefix in its path does not sort, byte by byte, below U+FFFF.
  lemma RevokePrefixMissesExactly(rows: Rows, tenant: Text, prefix: Text, now: int, id: Text)
    requires id in rows && rows[id].holding.tenant == tenant && rows[id].revoked.None?
    requires HasPrefix(rows[id].holding.path, prefix)
    ensures RevokedWhere(rows, Under(rows, tenant, prefix), now)[id].revoked.None? <==>
      !Less(rows[id].holding.path[|prefix|..], CEILING)
  {
    hide Less, InScan;
    ScanExactly(prefix, rows[id].holding.path);
  }

  // In a path that can be leased and is valid UTF-8, that is: what follows begins with
  // a character beyond U+FFFF.
  lemma RevokePrefixMissesWide(rows: Rows, tenant: Text, prefix: Text, now: int, id: Text)
    requires id in rows && rows[id].holding.tenant == tenant && rows[id].revoked.None?
    requires LeasablePath(rows[id].holding.path) && ValidUtf8(rows[id].holding.path)
    requires HasPrefix(rows[id].holding.path, prefix)
    ensures RevokedWhere(rows, Under(rows, tenant, prefix), now)[id].revoked.None? <==>
      |prefix| < |rows[id].holding.path| && rows[id].holding.path[|prefix|] >= 0xF0
  {
    hide Less, Contains, ValidUtf8, InScan, Under;
    var path := rows[id].holding.path;
    var rest := path[|prefix|..];
    RevokePrefixMissesExactly(rows, tenant, prefix, now, id);
    NotContained(path, CEILING, |prefix|);
    if rest != [] && rest[0] == 0xEF {
      ValidFrom(path, |prefix|);
    }
    BelowCeilingExactly(rest);
  }

  lemma NotContained(s: Text, part: Text, i: nat)
    requires !Contains(s, part) && i <= |s|
    ensures !HasPrefix(s[i..], part)
  {}

  // A row of another tenant, or without the prefix, is never touched.
  lemma RevokePrefixTouchesOnlyPrefix(rows: Rows, tenant: Text, prefix: Text, now: int, id: Text)
    requires id in rows && !(rows[id].holding.tenant == tenant && HasPrefix(rows[id].holding.path, prefix))
    ensures RevokedWhere(rows, Under(rows, tenant, prefix), now)[id] == rows[id]
  {
    hide Less, InScan;
    ScanExactly(prefix, rows[id].holding.path);
  }

  // Two paths the promise fails for: the prefix and then U+10000, or a byte that is
  // not UTF-8 at all. Each is leased, and a revocation of the prefix leaves it alone.
  lemma EscapedLease(tenant: Text, identity: Text, version: int, now: int, suffix: Text, wide: bool)
    requires ValidTenant(tenant)
    ensures var prefix: Text := [97, SLASH];
      var h := Holding(tenant, identity, prefix + if wide then WIDE else NOT_UTF8, version);
      var id := NewId(h.path, suffix);
      var rows := Apply(map[], Issuing(h, SECOND, now, id));
      && HasPrefix(h.path, prefix)
      && rows == map[id := NewRow(h, SECOND, now)]
      && Apply(rows, RevokingPrefix(tenant, prefix, now)) == rows
  {
    hide InScan, Less, Contains;
    var prefix: Text := [97, SLASH];
    var rest := if wide then WIDE else NOT_UTF8;
    var h := Holding(tenant, identity, prefix + rest, version);
    var rows: Rows := map[];
    assert h.path[2..] == rest && h.path[..2] == prefix;
    ScanExactly(prefix, h.path);
    AboveCeiling();
    NoCeiling(h.path);
    assert !Held(rows, h, now);
    assert RevokedWhere(rows, (set i | i in rows && LiveFor(rows, i, h)), now) == rows;
  }

  const WIDE: Text := [0xF0, 0x90, 0x80, 0x80]
  const NOT_UTF8: Text := [0xEF, 0xC0]

  lemma AboveCeiling()
    ensures !Less(WIDE, CEILING) && !Less(NOT_UTF8, CEILING)
  {}

  lemma NoCeiling(s: Text)
    requires forall i :: 0 <= i < |s| - 2 ==> s[i] != 0xEF
    ensures !Contains(s, CEILING)
  {
    forall i | 0 <= i <= |s| ensures !HasPrefix(s[i..], CEILING) {
      PrefixHead(s[i..], CEILING);
    }
  }
}
