/** Leases on secret versions: issuing, renewing, revoking and sweeping them. */
module Lease {
  import opened Wrappers
  import opened Encoding
  import opened Limits
  import opened Ordering
  import opened Paths
  import Auth

  const MAXIMUM_TTL := 24 * 3600 * SECOND
  const RETENTION := 24 * 3600 * SECOND

  // U+FFFF in UTF-8.
  const CEILING: Text := [0xEF, 0xBF, 0xBF]

  datatype Holding = Holding(tenant: Text, identity: Text, path: Text, version: int)

  datatype Row = Row(holding: Holding, issued: int, expires: int, revoked: Option<int>)

  type Rows = map<Text, Row>

  datatype Grant = Grant(id: Text, holding: Holding, issued: int, expires: int)

  datatype Revocation = Revocation(leases: nat, identities: seq<Text>, tokens: nat)

  datatype LeaseError = InvalidTenant | InvalidPath | InvalidTtl | InvalidBatch | NotFound | NotHolder | Gone | IdTaken

  // ---- validation ----

  predicate Contains(s: Text, part: Text) { exists i :: 0 <= i <= |s| && HasPrefix(s[i..], part) }

  lemma ContainsMeaning(s: Text, part: Text)
    ensures Contains(s, part) <==> exists before, after: Text :: s == before + part + after
  {
    if Contains(s, part) {
      var i :| 0 <= i <= |s| && HasPrefix(s[i..], part);
      assert s == s[..i] + part + s[i + |part|..];
    }
    forall before, after: Text | s == before + part + after ensures Contains(s, part) {
      assert s[|before|..] == part + after;
      assert HasPrefix(s[|before|..], part);
    }
  }

  predicate ValidTenant(tenant: Text) { tenant != [] && |tenant| <= MAX_TENANT_LEN }

  predicate ValidTtl(ttl: int) { 0 < ttl <= MAXIMUM_TTL }

  predicate LeasablePath(path: Text) { path != [] && |path| <= MAX_PATH_LEN && !Contains(path, CEILING) }

  function IssueFault(h: Holding, ttl: int): Option<LeaseError> {
    if !ValidTenant(h.tenant) then Some(InvalidTenant)
    else if !LeasablePath(h.path) then Some(InvalidPath)
    else if !ValidTtl(ttl) then Some(InvalidTtl)
    else None
  }

  // ---- the rows ----

  predicate LiveFor(rows: Rows, id: Text, h: Holding) {
    id in rows && rows[id].holding == h && rows[id].revoked.None?
  }

  predicate ActiveFor(rows: Rows, id: Text, h: Holding, now: int) { LiveFor(rows, id, h) && rows[id].expires > now }

  // What the unique index demands: one unrevoked row for each holding.
  ghost predicate OneLive(rows: Rows) {
    forall i, j, h :: LiveFor(rows, i, h) && LiveFor(rows, j, h) ==> i == j
  }

  function RevokedWhere(rows: Rows, hit: set<Text>, now: int): Rows {
    map id | id in rows ::
      if id in hit && rows[id].revoked.None? then rows[id].(revoked := Some(now)) else rows[id]
  }

  function Max(a: int, b: int): int { if a >= b then a else b }

  function NewId(path: Text, suffix: Text): Text { path + [SLASH] + suffix }

  function NewRow(h: Holding, ttl: int, now: int): Row { Row(h, now, now + ttl, None) }

  ghost predicate Held(rows: Rows, h: Holding, now: int) { exists id :: ActiveFor(rows, id, h, now) }

  // An active lease is kept and never shortened; otherwise whatever was left
  // unrevoked is, and a new lease takes its place.
  ghost function Issued(rows: Rows, h: Holding, ttl: int, now: int, id: Text): Rows {
    if Held(rows, h, now) then
      map i | i in rows ::
        if ActiveFor(rows, i, h, now) then rows[i].(expires := Max(rows[i].expires, now + ttl)) else rows[i]
    else RevokedWhere(rows, (set i | i in rows && LiveFor(rows, i, h)), now)[id := NewRow(h, ttl, now)]
  }

  predicate Shows(rows: Rows, g: Grant) {
    g.id in rows && rows[g.id].revoked.None? && g == Grant(g.id, rows[g.id].holding, rows[g.id].issued, rows[g.id].expires)
  }

  // The scan of an index over paths, from the prefix to just below its ceiling.
  predicate InScan(prefix: Text, path: Text) { AtMost(prefix, path) && Less(path, prefix + CEILING) }

  predicate UnderAt(rows: Rows, tenant: Text, prefix: Text, id: Text) {
    id in rows && rows[id].holding.tenant == tenant && InScan(prefix, rows[id].holding.path) && rows[id].revoked.None?
  }

  function Under(rows: Rows, tenant: Text, prefix: Text): (hit: set<Text>)
    ensures forall id :: id in hit <==> UnderAt(rows, tenant, prefix, id)
  {
    set id | id in rows && UnderAt(rows, tenant, prefix, id)
  }

  function HeldBy(rows: Rows, tenant: Text, identity: Text): set<Text> {
    set id | id in rows && rows[id].holding.tenant == tenant && rows[id].holding.identity == identity
      && rows[id].revoked.None?
  }

  function Holders(rows: Rows, hit: set<Text>): set<Text> { set id | id in hit && id in rows :: rows[id].holding.identity }

  // ---- tokens of several identities ----

  function TokensOf(t: Auth.Tables, ids: set<Text>): set<Text> {
    set v | v in t.tokens && t.tokens[v].identity in ids && t.tokens[v].revoked.None?
  }

  function RevokedForAll(t: Auth.Tables, ids: set<Text>, now: int): Auth.Tables {
    t.(tokens := map v | v in t.tokens ::
      if t.tokens[v].identity in ids && t.tokens[v].revoked.None? then t.tokens[v].(revoked := Some(now)) else t.tokens[v])
  }

  lemma RevokedForAllMeaning(t: Auth.Tables, ids: set<Text>, now: int)
    ensures var u := RevokedForAll(t, ids, now);
      forall v :: v in t.tokens ==>
        && v in u.tokens
        && (t.tokens[v].identity in ids ==> u.tokens[v].revoked.Some?)
        && (t.tokens[v].identity !in ids ==> u.tokens[v] == t.tokens[v])
  {}

  lemma RevokedForOneMore(t: Auth.Tables, ids: set<Text>, id: Text, now: int)
    requires id !in ids
    ensures Auth.RevokedFor(RevokedForAll(t, ids, now), id, now) == RevokedForAll(t, ids + {id}, now)
    ensures var u := RevokedForAll(t, ids, now);
      |TokensOf(t, ids + {id})| == |TokensOf(t, ids)| + |set v | v in u.tokens && Auth.Unrevoked(u.tokens, id, v)|
  {
    hide RevokedForAll, TokensOf, Auth.Unrevoked, Auth.RevokedFor;
    var u := RevokedForAll(t, ids, now);
    OneMoreTokens(t, ids, id, now);
    Apart(TokensOf(t, ids), set v | v in u.tokens && Auth.Unrevoked(u.tokens, id, v));
    RevokedInTurn(t, ids, id, now);
  }

  lemma RevokedInTurn(t: Auth.Tables, ids: set<Text>, id: Text, now: int)
    requires id !in ids
    ensures Auth.RevokedFor(RevokedForAll(t, ids, now), id, now) == RevokedForAll(t, ids + {id}, now)
  {
    var a := Auth.RevokedFor(RevokedForAll(t, ids, now), id, now).tokens;
    var b := RevokedForAll(t, ids + {id}, now).tokens;
    assert a.Keys == t.tokens.Keys == b.Keys;
    forall v | v in a ensures a[v] == b[v] {
      assert v in t.tokens;
    }
    assert a == b;
  }

  lemma OneMoreTokens(t: Auth.Tables, ids: set<Text>, id: Text, now: int)
    requires id !in ids
    ensures var u := RevokedForAll(t, ids, now);
      var more := set v | v in u.tokens && Auth.Unrevoked(u.tokens, id, v);
      TokensOf(t, ids + {id}) == TokensOf(t, ids) + more && TokensOf(t, ids) !! more
  {
    hide HasPrefix;
  }

  lemma Apart(a: set<Text>, b: set<Text>)
    requires a !! b
    ensures |a + b| == |a| + |b|
  {}

  // The rows of a hit that these identities hold.
  function HeldByAny(rows: Rows, hit: set<Text>, ids: set<Text>): set<Text> {
    set id | id in hit && id in rows && rows[id].holding.identity in ids
  }

  lemma OneMoreHolder(rows: Rows, hit: set<Text>, ids: set<Text>, holder: Text)
    requires holder !in ids
    ensures |HeldByAny(rows, hit, ids + {holder})| == |HeldByAny(rows, hit, ids)| + |HeldByAny(rows, hit, {holder})|
  {
    Apart(HeldByAny(rows, hit, ids), HeldByAny(rows, hit, {holder}));
    assert HeldByAny(rows, hit, ids + {holder}) == HeldByAny(rows, hit, ids) + HeldByAny(rows, hit, {holder});
  }

  lemma EveryHolder(rows: Rows, hit: set<Text>)
    requires hit <= rows.Keys
    ensures HeldByAny(rows, hit, {}) == {} && HeldByAny(rows, hit, Holders(rows, hit)) == hit
  {}

  // ---- sweeping ----

  function Due(rows: Rows, cutoff: int): (ids: set<Text>)
    ensures forall id :: id in ids <==> id in rows && rows[id].expires <= cutoff
  {
    set id | id in rows && rows[id].expires <= cutoff
  }

  predicate SweepTakes(rows: Rows, gone: set<Text>, batch: int, now: int) {
    && gone <= Due(rows, now - RETENTION)
    && |gone| == if |Due(rows, now - RETENTION)| <= batch then |Due(rows, now - RETENTION)| else batch
  }

  class Manager {
    var rows: Rows
    const revoker: Auth.Manager

    constructor (revoker: Auth.Manager)
      ensures rows == map[] && this.revoker == revoker
    {
      rows := map[];
      this.revoker := revoker;
    }

    method Issue(h: Holding, ttl: int, now: int, suffix: Text) returns (r: Result<Grant, LeaseError>)
      requires OneLive(rows)
      modifies this
      ensures (r.Success? <==>
          IssueFault(h, ttl).None? && (Held(old(rows), h, now) || NewId(h.path, suffix) !in old(rows)))
      ensures rows == if r.Success? then Issued(old(rows), h, ttl, now, NewId(h.path, suffix)) else old(rows)
      ensures r.Success? ==> Shows(rows, r.value) && ActiveFor(rows, r.value.id, h, now)
      ensures r.Success? ==> r.value.holding == h && r.value.expires >= now + ttl
      ensures (IssueFault(h, ttl).None? <==>
          && 0 < |h.tenant| <= 64 && 0 < |h.path| <= 512 && !Contains(h.path, [0xEF, 0xBF, 0xBF])
          && 0 < ttl <= 86_400_000_000_000)
      ensures (r.Failure? ==>
        r.error ==
          if !(0 < |h.tenant| <= 64) then InvalidTenant
          else if !(0 < |h.path| <= 512) || Contains(h.path, [0xEF, 0xBF, 0xBF]) then InvalidPath
          else if !(0 < ttl <= 86_400_000_000_000) then InvalidTtl else IdTaken)
      // Rows of other holdings are untouched, and of this one none but the lapsed.
      ensures forall i :: i in old(rows) ==> i in rows && (old(rows)[i].holding != h ==> rows[i] == old(rows)[i])
      ensures forall i :: i in rows && i !in old(rows) ==> i == h.path + [SLASH] + suffix && rows[i] == Row(h, now, now + ttl, None)
    {
      var fault := IssueFault(h, ttl);
      if fault.Some? {
        return Failure(fault.value);
      }
      var expiry := now + ttl;
      if id :| id in rows && ActiveFor(rows, id, h, now) {
        var existing := rows[id];
        assert forall i :: ActiveFor(rows, i, h, now) ==> i == id;
        if expiry > existing.expires {
          rows := rows[id := existing.(expires := expiry)];
        }
        return Success(Grant(id, h, existing.issued, Max(existing.expires, expiry)));
      }
      var id := NewId(h.path, suffix);
      if id in rows {
        return Failure(IdTaken);
      }
      var lapsed := set i | i in rows && LiveFor(rows, i, h);
      rows := RevokedWhere(rows, lapsed, now);
      rows := rows[id := Row(h, now, expiry, None)];
      return Success(Grant(id, h, now, expiry));
    }

    method Renew(id: Text, identity: Text, ttl: int, now: int) returns (r: Result<Grant, LeaseError>)
      modifies this
      ensures (r.Success? <==>
          ValidTtl(ttl) && id in old(rows) && old(rows)[id].revoked.None? && now < old(rows)[id].expires
          && old(rows)[id].holding.identity == identity)
      ensures rows == if r.Success? then old(rows)[id := old(rows)[id].(expires := now + ttl)] else old(rows)
      ensures r.Success? ==> Shows(rows, r.value) && r.value.id == id
      ensures (r.Failure? ==>
        r.error ==
          if !(0 < ttl <= 86_400_000_000_000) then InvalidTtl
          else if id !in old(rows) || old(rows)[id].revoked.Some? then Gone
          else if old(rows)[id].holding.identity != identity then NotHolder else Gone)
    {
      if ttl <= 0 || ttl > MAXIMUM_TTL {
        return Failure(InvalidTtl);
      }
      if id !in rows || rows[id].revoked.Some? {
        return Failure(Gone);
      }
      var held := rows[id];
      if held.holding.identity != identity {
        return Failure(NotHolder);
      }
      if now >= held.expires {
        return Failure(Gone);
      }
      rows := rows[id := held.(expires := now + ttl)];
      return Success(Grant(id, held.holding, held.issued, now + ttl));
    }

    method Revoke(id: Text, now: int) returns (error: Option<LeaseError>)
      modifies this
      ensures error == if id in old(rows) then None else Some(NotFound)
      ensures rows == RevokedWhere(old(rows), {id}, now)
      ensures rows.Keys == old(rows).Keys && forall i :: i in rows && i != id ==> rows[i] == old(rows)[i]
      ensures (id in rows ==>
        var was := old(rows)[id];
        rows[id] == was.(revoked := Some(if was.revoked.Some? then was.revoked.value else now)))
    {
      if id in rows && rows[id].revoked.None? {
        rows := rows[id := rows[id].(revoked := Some(now))];
        return None;
      }
      return if id in rows then None else Some(NotFound);
    }

    // The holders under a prefix, each with its count; the counts are summed.
    method HoldersUnder(tenant: Text, prefix: Text) returns (holders: seq<Text>, leases: nat)
      ensures StrictlyAscending(holders)
      ensures (set h | h in holders) == Holders(rows, Under(rows, tenant, prefix))
      ensures leases == |Under(rows, tenant, prefix)|
    {
      hide Under, HeldByAny, Holders, Less;
      var hit := Under(rows, tenant, prefix);
      EveryHolder(rows, hit);
      holders := SortedNames(Holders(rows, hit));
      leases := 0;
      ghost var counted: set<Text> := {};
      for i := 0 to |holders|
        invariant counted == set h | h in holders[..i]
        invariant leases == |HeldByAny(rows, hit, counted)|
      {
        NotBefore(holders, i);
        assert holders[..i + 1] == holders[..i] + [holders[i]];
        OneMoreHolder(rows, hit, counted, holders[i]);
        leases := leases + |HeldByAny(rows, hit, {holders[i]})|;
        counted := counted + {holders[i]};
      }
      assert holders[..|holders|] == holders;
    }

    method RevokeHolders(leases: nat, holders: seq<Text>, now: int) returns (r: Revocation)
      requires StrictlyAscending(holders)
      modifies revoker
      ensures revoker.State() == RevokedForAll(old(revoker.State()), (set h | h in holders), now)
      ensures r == Revocation(leases, holders, |TokensOf(old(revoker.State()), (set h | h in holders))|)
    {
      hide Less, RevokedForAll, TokensOf, Auth.RevokedFor;
      ghost var before := revoker.State();
      var tokens: nat := 0;
      RevokedForNone(before, now);
      ghost var done: set<Text> := {};
      for i := 0 to |holders|
        invariant done == set h | h in holders[..i]
        invariant revoker.State() == RevokedForAll(before, done, now)
        invariant tokens == |TokensOf(before, done)|
      {
        NotBefore(holders, i);
        assert holders[..i + 1] == holders[..i] + [holders[i]];
        RevokedForOneMore(before, done, holders[i], now);
        var affected := revoker.RevokeIdentity(holders[i], now);
        tokens := tokens + affected;
        done := done + {holders[i]};
      }
      assert holders[..|holders|] == holders;
      return Revocation(leases, holders, tokens);
    }

    method RevokePrefix(tenant: Text, prefix: Text, now: int) returns (r: Result<Revocation, LeaseError>)
      modifies this, revoker
      ensures r.Success? <==> 0 < |tenant| <= 64 && 0 < |prefix| <= 512
      ensures r.Failure? ==> r.error == if 0 < |tenant| <= 64 then InvalidPath else InvalidTenant
      ensures r.Failure? ==> rows == old(rows) && revoker.State() == old(revoker.State())
      ensures (r.Success? ==>
          RevocationOf(old(rows), old(revoker.State()), Under(old(rows), tenant, prefix), now, rows, revoker.State(), r.value))
    {
      hide InScan, RevokedForAll, TokensOf, StrictlyAscending;
      if !ValidTenant(tenant) {
        return Failure(InvalidTenant);
      }
      if prefix == [] || |prefix| > MAX_PATH_LEN {
        return Failure(InvalidPath);
      }
      var holders, leases := HoldersUnder(tenant, prefix);
      rows := RevokedWhere(rows, Under(rows, tenant, prefix), now);
      var revocation := RevokeHolders(leases, holders, now);
      return Success(revocation);
    }

    method RevokeIdentity(tenant: Text, identity: Text, now: int) returns (r: Result<Revocation, LeaseError>)
      modifies this, revoker
      ensures r.Success? <==> 0 < |tenant| <= 64
      ensures r.Failure? ==> r.error == InvalidTenant
      ensures r.Failure? ==> rows == old(rows) && revoker.State() == old(revoker.State())
      ensures rows.Keys == old(rows).Keys
      ensures (r.Success? ==> forall i :: i in rows ==>
          var was := old(rows)[i];
          if was.holding.tenant == tenant && was.holding.identity == identity && was.revoked.None?
          then rows[i] == was.(revoked := Some(now)) else rows[i] == was)
      ensures (r.Success? ==>
          r.value.leases == |set i | i in old(rows) && old(rows)[i].revoked.None? && rows[i].revoked.Some?|)
      ensures (r.Success? ==> forall v :: v in old(revoker.tokens) ==>
          && v in revoker.tokens
          && (old(revoker.tokens)[v].identity == identity ==> revoker.tokens[v].revoked.Some?)
          && (old(revoker.tokens)[v].identity != identity ==> revoker.tokens[v] == old(revoker.tokens)[v]))
      ensures (r.Success? ==>
          && rows == RevokedWhere(old(rows), HeldBy(old(rows), tenant, identity), now)
          && revoker.State() == RevokedForAll(old(revoker.State()), {identity}, now)
          && r.value.leases == |HeldBy(old(rows), tenant, identity)|
          && r.value.tokens == |TokensOf(old(revoker.State()), {identity})|)
    {
      hide RevokedForAll, TokensOf;
      if !ValidTenant(tenant) {
        return Failure(InvalidTenant);
      }
      var leases := |HeldBy(rows, tenant, identity)|;
      rows := RevokedWhere(rows, HeldBy(rows, tenant, identity), now);
      ghost var revoked := set i | i in old(rows) && old(rows)[i].revoked.None? && rows[i].revoked.Some?;
      assert revoked == HeldBy(old(rows), tenant, identity);
      ghost var before := revoker.State();
      var revocation := RevokeHolders(leases, [identity], now);
      assert (set h | h in [identity]) == {identity};
      RevokedForAllMeaning(before, {identity}, now);
      return Success(revocation);
    }

    // The database may choose any of the rows that are due.
    method Sweep(batch: int, now: int) returns (r: Result<nat, LeaseError>, ghost gone: set<Text>)
      modifies this
      ensures r.Success? <==> batch >= 1
      ensures r.Failure? ==> r.error == InvalidBatch
      ensures r.Success? ==> SweepTakes(old(rows), gone, batch, now) && r.value == |gone|
      ensures rows == if r.Success? then old(rows) - gone else old(rows)
      // Only rows a day past their expiry go, and all of these unless they are too many.
      ensures (r.Success? ==>
        && r.value <= batch && |rows| == |old(rows)| - r.value
        && (forall id :: id in old(rows) && id !in rows ==> old(rows)[id].expires + 86_400_000_000_000 <= now)
        && (r.value < batch ==> forall id :: id in rows ==> now < rows[id].expires + 86_400_000_000_000))
    {
      if batch < 1 {
        return Failure(InvalidBatch), {};
      }
      var due := Due(rows, now - RETENTION);
      var picked := Pick(due, batch);
      Apart(due - picked, picked);
      assert due - picked + picked == due;
      assert rows.Keys == (rows - picked).Keys + picked;
      rows := rows - picked;
      return Success(|picked|), picked;
    }
  }

  method Pick(from: set<Text>, limit: nat) returns (picked: set<Text>)
    ensures picked <= from && |picked| == if |from| <= limit then |from| else limit
  {
    picked := {};
    var rest := from;
    while rest != {} && |picked| < limit
      invariant picked + rest == from && picked !! rest && |picked| <= limit
      decreases rest
    {
      var id :| id in rest;
      picked := picked + {id};
      rest := rest - {id};
    }
    assert |picked + rest| == |picked| + |rest|;
  }

  lemma NotBefore(names: seq<Text>, i: nat)
    requires StrictlyAscending(names) && i < |names|
    ensures names[i] !in names[..i]
  {
    hide Less;
    forall j | 0 <= j < i ensures names[j] != names[i] {
      assert Less(names[j], names[i]);
      LessTotal(names[j], names[i]);
    }
  }

  lemma RevokedForNone(t: Auth.Tables, now: int)
    ensures RevokedForAll(t, {}, now) == t && TokensOf(t, {}) == {}
  {}

  // These rows revoked, their holders' tokens with them, and the report exact.
  predicate RevocationOf(
    rows: Rows, t: Auth.Tables, hit: set<Text>, now: int, rows': Rows, t': Auth.Tables, report: Revocation) {
    && rows' == RevokedWhere(rows, hit, now)
    && t' == RevokedForAll(t, Holders(rows, hit), now)
    && report.leases == |hit|
    && StrictlyAscending(report.identities) && (set h | h in report.identities) == Holders(rows, hit)
    && report.tokens == |TokensOf(t, Holders(rows, hit))|
  }

  // ---- what a revocation leaves ----

  // No row of the tenant that the scan covers is left unrevoked, every other row is
  // as it was, and no token of a holder can authenticate again.
  lemma RevocationLeavesNothing(
      rows: Rows, t: Auth.Tables, tenant: Text, prefix: Text, now: int, rows': Rows, t': Auth.Tables, report: Revocation)
    requires RevocationOf(rows, t, Under(rows, tenant, prefix), now, rows', t', report)
    ensures rows'.Keys == rows.Keys
    ensures forall id :: id in rows' && rows'[id].holding.tenant == tenant && InScan(prefix, rows'[id].holding.path) ==>
      rows'[id].revoked.Some?
    ensures forall id :: id in rows && !UnderAt(rows, tenant, prefix, id) ==> rows'[id] == rows[id]
    ensures report.leases == |set id | id in rows && rows[id].revoked.None? && rows'[id].revoked.Some?|
    ensures forall v, binding, at :: v in t.tokens && t.tokens[v].identity in report.identities ==>
      !Auth.Authenticates(t', v, binding, at)
    ensures forall v :: v in t.tokens && t.tokens[v].identity !in report.identities ==> t'.tokens[v] == t.tokens[v]
  {
    hide InScan;
    assert (set id | id in rows && rows[id].revoked.None? && rows'[id].revoked.Some?) == Under(rows, tenant, prefix);
    forall h ensures h in report.identities <==> h in Holders(rows, Under(rows, tenant, prefix)) {
      assert h in (set k | k in report.identities) <==> h in report.identities;
    }
  }
}
