/** Identities, their tokens, and the two ways to come by a session. */
module Auth {
  import opened Wrappers
  import opened Encoding
  import opened Limits
  import opened Paths

  const MAX_IDENTITY_LEN := 128
  const MAXIMUM_TTL := 30 * 24 * 3600 * SECOND
  const INSTANCE_TTL := 3600 * SECOND
  const MAX_SKEW := 60 * SECOND
  const NO_BINDING: Text := []
  const TOKEN_PREFIX: Text := [109, 115, 115, 95]
  const MIN_TOKEN_LEN := 47

  datatype Kind = KindBootstrap | KindInstance | KindOidc | KindService | KindUnknown(name: Text)

  datatype Identity = Identity(kind: Kind, tenant: Text, created: int, disabled: Option<int>)

  datatype Token = Token(
    identity: Text, binding: Text, issued: int, expires: int, single: bool, revoked: Option<int>, consumed: Option<int>)

  datatype Spent = Spent(identity: Text, at: int, expires: int)

  // Tokens are kept under their values: no two values share a fingerprint.
  datatype Tables = Tables(identities: map<Text, Identity>, tokens: map<Text, Token>, spent: map<Text, Spent>)

  datatype AuthError =
    | InvalidIdentity | InvalidKind | InvalidTenant | InvalidTtl | UnknownIdentity | IdentityExists | IdentityDisabled
    | Unauthenticated | Replayed | TenantMismatch | KindMismatch | ValueTaken

  predicate LooksLikeToken(value: Text) { |value| >= MIN_TOKEN_LEN && HasPrefix(value, TOKEN_PREFIX) }

  lemma LooksLikeTokenMeaning(value: Text)
    ensures LooksLikeToken(value) <==> exists rest: Text :: |rest| >= 43 && value == [109, 115, 115, 95] + rest
  {
    if LooksLikeToken(value) {
      assert value == TOKEN_PREFIX + value[4..];
    }
    forall rest: Text | |rest| >= 43 && value == TOKEN_PREFIX + rest ensures LooksLikeToken(value) {
      assert value[..4] == TOKEN_PREFIX;
    }
  }

  predicate ValidTtl(ttl: int) { 0 < ttl <= MAXIMUM_TTL }

  function IdentityFault(id: Text, kind: Kind, tenant: Text): Option<AuthError> {
    if id == [] || |id| > MAX_IDENTITY_LEN then Some(InvalidIdentity)
    else if kind.KindUnknown? then Some(InvalidKind)
    else if tenant == [] || |tenant| > MAX_TENANT_LEN then Some(InvalidTenant)
    else None
  }

  // ---- assertions ----

  datatype Claims = Claims(
    issuer: Text, subject: Text, audience: seq<Text>, expires: int, notBefore: int, issuedAt: int, id: Text, tenant: Text)

  datatype JwtError =
    | NoExpiry | NoSubject | NoTokenId | NoTenant | WrongIssuer | WrongAudience | Expired | NotYetValid | IssuedInFuture

  datatype Verifier = Verifier(issuer: Text, audience: Text, skew: int) {
    predicate Valid() { 0 <= skew <= MAX_SKEW }
  }

  // The claims of an assertion whose signature is good; their times are in
  // seconds, the clock in nanoseconds.
  function Check(v: Verifier, c: Claims, now: int): Option<JwtError> {
    if c.expires == 0 then Some(NoExpiry)
    else if c.subject == [] then Some(NoSubject)
    else if c.id == [] then Some(NoTokenId)
    else if c.tenant == [] then Some(NoTenant)
    else if c.issuer != v.issuer then Some(WrongIssuer)
    else if v.audience !in c.audience then Some(WrongAudience)
    else if now - v.skew >= c.expires * SECOND then Some(Expired)
    else if c.notBefore != 0 && now + v.skew < c.notBefore * SECOND then Some(NotYetValid)
    else if c.issuedAt != 0 && now + v.skew < c.issuedAt * SECOND then Some(IssuedInFuture)
    else None
  }

  // ---- what each transaction does to the tables ----

  predicate Issues(t: Tables, id: Text, ttl: int, value: Text) {
    ValidTtl(ttl) && id in t.identities && t.identities[id].disabled.None? && value !in t.tokens
  }

  function NewToken(id: Text, binding: Text, ttl: int, single: bool, now: int): Token {
    Token(id, binding, now, now + ttl, single, None, None)
  }

  function Issued(t: Tables, id: Text, binding: Text, ttl: int, single: bool, value: Text, now: int): Tables {
    t.(tokens := t.tokens[value := NewToken(id, binding, ttl, single, now)])
  }

  predicate Authenticates(t: Tables, value: Text, binding: Text, now: int) {
    && LooksLikeToken(value) && value in t.tokens && t.tokens[value].identity in t.identities
    && !t.tokens[value].single && t.tokens[value].revoked.None? && now < t.tokens[value].expires
    && t.identities[t.tokens[value].identity].disabled.None? && t.tokens[value].binding == binding
  }

  // What presenting a token answers: its identity, or nothing about why not.
  function Answered(t: Tables, value: Text, binding: Text, now: int): Result<Text, AuthError> {
    if Authenticates(t, value, binding, now) then Success(t.tokens[value].identity) else Failure(Unauthenticated)
  }

  predicate Consumable(t: Tables, value: Text, now: int) {
    && value in t.tokens && t.tokens[value].identity in t.identities
    && t.tokens[value].single && t.tokens[value].revoked.None? && t.tokens[value].consumed.None?
    && t.identities[t.tokens[value].identity].disabled.None? && now < t.tokens[value].expires
  }

  function Consumed(t: Tables, value: Text, now: int): Tables
    requires value in t.tokens
  {
    t.(tokens := t.tokens[value := t.tokens[value].(consumed := Some(now))])
  }

  predicate Exchanges(t: Tables, presented: Text, ttl: int, value: Text, now: int) {
    ValidTtl(ttl) && LooksLikeToken(presented) && Consumable(t, presented, now) && value !in t.tokens
  }

  function Exchanged(t: Tables, presented: Text, binding: Text, ttl: int, value: Text, now: int): Tables
    requires presented in t.tokens
  {
    Issued(Consumed(t, presented, now), t.tokens[presented].identity, binding, ttl, false, value, now)
  }

  // The subject is new, or registered as the assertion says it is.
  predicate Enrols(t: Tables, c: Claims) {
    c.subject in t.identities ==>
      t.identities[c.subject].tenant == c.tenant && t.identities[c.subject].kind == KindInstance
  }

  function Enrolled(t: Tables, c: Claims, now: int): Tables {
    if c.subject in t.identities then t
    else t.(identities := t.identities[c.subject := Identity(KindInstance, c.tenant, now, None)])
  }

  function Spending(t: Tables, c: Claims, now: int): Tables {
    t.(spent := t.spent[c.id := Spent(c.subject, now, c.expires * SECOND)])
  }

  predicate LogsIn(t: Tables, c: Claims, value: Text) {
    && IdentityFault(c.subject, KindInstance, c.tenant).None? && c.id !in t.spent && Enrols(t, c)
    && (c.subject in t.identities ==> t.identities[c.subject].disabled.None?) && value !in t.tokens
  }

  function LoggedIn(t: Tables, c: Claims, value: Text, now: int): Tables {
    Issued(Enrolled(Spending(t, c, now), c, now), c.subject, NO_BINDING, INSTANCE_TTL, false, value, now)
  }

  predicate Unrevoked(tokens: map<Text, Token>, id: Text, value: Text) {
    value in tokens && tokens[value].identity == id && tokens[value].revoked.None?
  }

  function RevokedFor(t: Tables, id: Text, now: int): Tables {
    t.(tokens := map v | v in t.tokens ::
      if Unrevoked(t.tokens, id, v) then t.tokens[v].(revoked := Some(now)) else t.tokens[v])
  }

  function RevokedOne(t: Tables, value: Text, now: int): Tables {
    if value in t.tokens && t.tokens[value].revoked.None?
    then t.(tokens := t.tokens[value := t.tokens[value].(revoked := Some(now))])
    else t
  }

  function Disabled(t: Tables, id: Text, now: int): Tables {
    if id in t.identities && t.identities[id].disabled.None?
    then t.(identities := t.identities[id := t.identities[id].(disabled := Some(now))])
    else t
  }

  function Registered(t: Tables, id: Text, kind: Kind, tenant: Text, now: int): Tables {
    t.(identities := t.identities[id := Identity(kind, tenant, now, None)])
  }

  function Purged(t: Tables, now: int): Tables {
    t.(tokens := map v | v in t.tokens && t.tokens[v].expires > now :: t.tokens[v])
  }

  function SpentPurged(t: Tables, now: int): Tables {
    t.(spent := map i | i in t.spent && t.spent[i].expires > now :: t.spent[i])
  }

  class Manager {
    var identities: map<Text, Identity>
    var tokens: map<Text, Token>
    var spent: map<Text, Spent>

    function State(): Tables
      reads this
    {
      Tables(identities, tokens, spent)
    }

    constructor ()
      ensures State() == Tables(map[], map[], map[])
    {
      identities, tokens, spent := map[], map[], map[];
    }

    method RegisterIdentity(id: Text, kind: Kind, tenant: Text, now: int) returns (error: Option<AuthError>)
      modifies this
      ensures error.None? <==> IdentityFault(id, kind, tenant).None? && id !in old(identities)
      ensures State() == if error.None? then Registered(old(State()), id, kind, tenant, now) else old(State())
      ensures (error.None? <==>
        0 < |id| <= MAX_IDENTITY_LEN && !kind.KindUnknown? && 0 < |tenant| <= MAX_TENANT_LEN && id !in old(identities))
      ensures (error.Some? ==>
        error.value ==
          if !(0 < |id| <= MAX_IDENTITY_LEN) then InvalidIdentity else if kind.KindUnknown? then InvalidKind
          else if !(0 < |tenant| <= MAX_TENANT_LEN) then InvalidTenant else IdentityExists)
      ensures identities == if error.None? then old(identities)[id := Identity(kind, tenant, now, None)] else old(identities)
      ensures tokens == old(tokens) && spent == old(spent)
    {
      error := IdentityFault(id, kind, tenant);
      if error.Some? {
        return;
      }
      if id in identities {
        return Some(IdentityExists);
      }
      identities := identities[id := Identity(kind, tenant, now, None)];
    }

    method DisableIdentity(id: Text, now: int) returns (error: Option<AuthError>)
      modifies this
      ensures error == if id in old(identities) then None else Some(UnknownIdentity)
      ensures State() == Disabled(old(State()), id, now)
      ensures tokens == old(tokens) && spent == old(spent) && identities.Keys == old(identities).Keys
      ensures (id in identities ==>
        var was := old(identities)[id];
        identities[id] == was.(disabled := Some(if was.disabled.Some? then was.disabled.value else now)))
      ensures forall i :: i in identities && i != id ==> identities[i] == old(identities)[i]
    {
      if id !in identities {
        return Some(UnknownIdentity);
      }
      if identities[id].disabled.None? {
        identities := identities[id := identities[id].(disabled := Some(now))];
      }
      return None;
    }

    method Issue(id: Text, binding: Text, ttl: int, single: bool, value: Text, now: int)
        returns (r: Result<Token, AuthError>)
      modifies this
      ensures r.Success? <==> Issues(old(State()), id, ttl, value)
      ensures r.Success? ==> r.value == NewToken(id, binding, ttl, single, now)
      ensures State() == if r.Success? then Issued(old(State()), id, binding, ttl, single, value, now) else old(State())
      ensures (r.Success? <==>
        0 < ttl <= MAXIMUM_TTL && id in old(identities) && old(identities)[id].disabled.None? && value !in old(tokens))
      ensures (tokens == if r.Success? then old(tokens)[value := Token(id, binding, now, now + ttl, single, None, None)]
                         else old(tokens))
      ensures identities == old(identities) && spent == old(spent)
      ensures (r.Failure? ==>
        r.error ==
          if !(0 < ttl <= MAXIMUM_TTL) then InvalidTtl else if id !in old(identities) then UnknownIdentity
          else if old(identities)[id].disabled.Some? then IdentityDisabled else ValueTaken)
    {
      if ttl <= 0 || ttl > MAXIMUM_TTL {
        return Failure(InvalidTtl);
      }
      if id !in identities {
        return Failure(UnknownIdentity);
      }
      if identities[id].disabled.Some? {
        return Failure(IdentityDisabled);
      }
      if value in tokens {
        return Failure(ValueTaken);
      }
      var token := Token(id, binding, now, now + ttl, single, None, None);
      tokens := tokens[value := token];
      return Success(token);
    }

    method Authenticate(value: Text, binding: Text, now: int) returns (r: Result<Text, AuthError>)
      ensures r == Answered(State(), value, binding, now)
      ensures (r.Success? <==>
        && LooksLikeToken(value) && value in tokens && !tokens[value].single && tokens[value].revoked.None?
        && now < tokens[value].expires && tokens[value].binding == binding
        && tokens[value].identity in identities && identities[tokens[value].identity].disabled.None?)
    {
      if !LooksLikeToken(value) || value !in tokens || tokens[value].identity !in identities {
        return Failure(Unauthenticated);
      }
      var t := tokens[value];
      if t.single || t.revoked.Some? || identities[t.identity].disabled.Some? || now >= t.expires || t.binding != binding {
        return Failure(Unauthenticated);
      }
      return Success(t.identity);
    }

    method Revoke(value: Text, now: int) returns (error: Option<AuthError>)
      modifies this
      ensures error == if LooksLikeToken(value) then None else Some(Unauthenticated)
      ensures State() == if error.None? then RevokedOne(old(State()), value, now) else old(State())
      ensures identities == old(identities) && spent == old(spent) && tokens.Keys == old(tokens).Keys
      ensures error.None? && value in tokens ==> tokens[value].revoked.Some?
      ensures forall v :: v in tokens && (v != value || old(tokens)[v].revoked.Some?) ==> tokens[v] == old(tokens)[v]
    {
      if !LooksLikeToken(value) {
        return Some(Unauthenticated);
      }
      if value in tokens && tokens[value].revoked.None? {
        tokens := tokens[value := tokens[value].(revoked := Some(now))];
      }
      return None;
    }

    method RevokeIdentity(id: Text, now: int) returns (affected: nat)
      modifies this
      ensures State() == RevokedFor(old(State()), id, now)
      ensures affected == |set v | v in old(tokens) && Unrevoked(old(tokens), id, v)|
      ensures identities == old(identities) && spent == old(spent) && tokens.Keys == old(tokens).Keys
      ensures forall v :: v in tokens ==>
        tokens[v] == if old(tokens)[v].identity == id && old(tokens)[v].revoked.None?
                     then old(tokens)[v].(revoked := Some(now)) else old(tokens)[v]
    {
      var before := tokens;
      var hit := set v | v in before && Unrevoked(before, id, v);
      tokens := map v | v in before :: if v in hit then before[v].(revoked := Some(now)) else before[v];
      return |hit|;
    }

    method PurgeExpired(now: int) returns (affected: nat)
      modifies this
      ensures State() == Purged(old(State()), now)
      ensures affected == |set v | v in old(tokens) && old(tokens)[v].expires <= now|
      ensures identities == old(identities) && spent == old(spent)
      ensures forall v :: v in tokens <==> v in old(tokens) && old(tokens)[v].expires > now
      ensures forall v :: v in tokens ==> tokens[v] == old(tokens)[v]
    {
      var gone := set v | v in tokens && tokens[v].expires <= now;
      tokens := map v | v in tokens && v !in gone :: tokens[v];
      return |gone|;
    }

    // One transaction: a failure anywhere undoes what went before.
    method Exchange(presented: Text, binding: Text, ttl: int, value: Text, now: int) returns (r: Result<Token, AuthError>)
      modifies this
      ensures r.Success? <==> Exchanges(old(State()), presented, ttl, value, now)
      ensures (r.Success? ==>
          r.value.identity == old(tokens)[presented].identity && r.value.binding == binding && !r.value.single)
      ensures State() == if r.Success? then Exchanged(old(State()), presented, binding, ttl, value, now) else old(State())
      ensures identities == old(identities) && spent == old(spent)
      ensures r.Failure? ==> tokens == old(tokens)
      ensures (r.Success? <==>
        && 0 < ttl <= MAXIMUM_TTL && LooksLikeToken(presented) && value !in old(tokens) && presented in old(tokens)
        && var b := old(tokens)[presented];
           b.single && b.revoked.None? && b.consumed.None? && now < b.expires
           && b.identity in identities && identities[b.identity].disabled.None?)
      ensures (r.Failure? ==>
        r.error ==
          if !(0 < ttl <= MAXIMUM_TTL) then InvalidTtl
          else if !LooksLikeToken(presented) || !Consumable(old(State()), presented, now) then Unauthenticated else ValueTaken)
      ensures (r.Success? ==>
        var b := old(tokens)[presented];
        tokens == old(tokens)[presented := b.(consumed := Some(now))]
                       [value := Token(b.identity, binding, now, now + ttl, false, None, None)])
    {
      if ttl <= 0 || ttl > MAXIMUM_TTL {
        return Failure(InvalidTtl);
      }
      if !LooksLikeToken(presented) {
        return Failure(Unauthenticated);
      }
      var before := tokens;
      var consumed := Consume(presented, now);
      if consumed.Failure? {
        return Failure(consumed.error);
      }
      r := Issue(consumed.value, binding, ttl, false, value, now);
      if r.Failure? {
        tokens := before;
      }
    }

    method Consume(presented: Text, now: int) returns (r: Result<Text, AuthError>)
      modifies this
      ensures r.Success? <==> Consumable(old(State()), presented, now)
      ensures r.Success? ==> State() == Consumed(old(State()), presented, now) && r.value == old(tokens)[presented].identity
      ensures r.Failure? ==> State() == old(State()) && r.error == Unauthenticated
    {
      if presented !in tokens || tokens[presented].identity !in identities {
        return Failure(Unauthenticated);
      }
      var t := tokens[presented];
      if !t.single {
        return Failure(Unauthenticated);
      } else if t.revoked.Some? || t.consumed.Some? || identities[t.identity].disabled.Some? {
        return Failure(Unauthenticated);
      } else if now >= t.expires {
        return Failure(Unauthenticated);
      }
      tokens := tokens[presented := t.(consumed := Some(now))];
      return Success(t.identity);
    }

    // The assertion is verified first, at its own reading of the clock, and spent
    // in the transaction that issues the session.
    method LoginInstance(v: Verifier, c: Claims, verifiedAt: int, value: Text, now: int)
        returns (r: Result<Token, AuthError>)
      modifies this
      ensures r.Success? <==> Check(v, c, verifiedAt).None? && LogsIn(old(State()), c, value)
      ensures r.Success? ==> r.value.identity == c.subject && r.value.expires == now + INSTANCE_TTL
      ensures State() == if r.Success? then LoggedIn(old(State()), c, value, now) else old(State())
      ensures r.Failure? ==> tokens == old(tokens) && identities == old(identities) && spent == old(spent)
      ensures (r.Success? <==>
        && Check(v, c, verifiedAt).None?
        && 0 < |c.subject| <= MAX_IDENTITY_LEN && 0 < |c.tenant| <= MAX_TENANT_LEN
        && c.id !in old(spent) && value !in old(tokens)
        && (c.subject in old(identities) ==>
             var i := old(identities)[c.subject];
             i.tenant == c.tenant && i.kind == KindInstance && i.disabled.None?))
      ensures (r.Failure? ==>
        r.error ==
          if Check(v, c, verifiedAt).Some? || IdentityFault(c.subject, KindInstance, c.tenant).Some? then Unauthenticated
          else if c.id in old(spent) then Replayed
          else if c.subject !in old(identities) then ValueTaken
          else if old(identities)[c.subject].tenant != c.tenant then TenantMismatch
          else if old(identities)[c.subject].kind != KindInstance then KindMismatch
          else if old(identities)[c.subject].disabled.Some? then Unauthenticated else ValueTaken)
      ensures (r.Success? ==>
        && spent == old(spent)[c.id := Spent(c.subject, now, c.expires * SECOND)]
        && tokens == old(tokens)[value := Token(c.subject, NO_BINDING, now, now + INSTANCE_TTL, false, None, None)]
        && identities.Keys == old(identities).Keys + {c.subject}
        && identities[c.subject].tenant == c.tenant && identities[c.subject].kind == KindInstance
        && identities[c.subject].disabled.None?
        && forall i :: i in old(identities) ==> identities[i] == old(identities)[i])
    {
      if Check(v, c, verifiedAt).Some? || IdentityFault(c.subject, KindInstance, c.tenant).Some? {
        return Failure(Unauthenticated);
      }
      var beforeIdentities, beforeSpent := identities, spent;
      if c.id in spent {
        return Failure(Replayed);
      }
      spent := spent[c.id := Spent(c.subject, now, c.expires * SECOND)];
      if c.subject !in identities {
        identities := identities[c.subject := Identity(KindInstance, c.tenant, now, None)];
      } else if identities[c.subject].tenant != c.tenant {
        spent := beforeSpent;
        return Failure(TenantMismatch);
      } else if identities[c.subject].kind != KindInstance {
        spent := beforeSpent;
        return Failure(KindMismatch);
      }
      r := Issue(c.subject, NO_BINDING, INSTANCE_TTL, false, value, now);
      if r.Failure? {
        identities, spent := beforeIdentities, beforeSpent;
        r := if r.error == IdentityDisabled then Failure(Unauthenticated) else r;
      }
    }

    method PurgeSpentAssertions(now: int) returns (affected: nat)
      modifies this
      ensures State() == SpentPurged(old(State()), now)
      ensures affected == |set i | i in old(spent) && old(spent)[i].expires <= now|
      ensures identities == old(identities) && tokens == old(tokens)
      ensures forall i :: i in spent <==> i in old(spent) && old(spent)[i].expires > now
      ensures forall i :: i in spent ==> spent[i] == old(spent)[i]
    {
      var gone := set i | i in spent && spent[i].expires <= now;
      spent := map i | i in spent && i !in gone :: spent[i];
      return |gone|;
    }
  }

  // ---- whole runs, one transaction or statement at a time ----

  // The insertion of an ordinary token is a statement of its own, so its identity
  // may have been disabled since it was looked up.
  datatype Op =
    | Registering(id: Text, kind: Kind, tenant: Text, now: int)
    | Disabling(id: Text, now: int)
    | Inserting(id: Text, binding: Text, ttl: int, single: bool, value: Text, now: int)
    | Revoking(value: Text, now: int)
    | RevokingFor(id: Text, now: int)
    | Purging(now: int)
    | Exchanging(presented: Text, binding: Text, ttl: int, value: Text, now: int)
    | LoggingIn(claims: Claims, verifiedAt: int, value: Text, now: int)
    | PurgingSpent(now: int)

  function Apply(v: Verifier, t: Tables, op: Op): Tables {
    match op
    case Registering(id, kind, tenant, now) =>
      if IdentityFault(id, kind, tenant).None? && id !in t.identities then Registered(t, id, kind, tenant, now) else t
    case Disabling(id, now) => Disabled(t, id, now)
    case Inserting(id, binding, ttl, single, value, now) =>
      if id in t.identities && value !in t.tokens then Issued(t, id, binding, ttl, single, value, now) else t
    case Revoking(value, now) => RevokedOne(t, value, now)
    case RevokingFor(id, now) => RevokedFor(t, id, now)
    case Purging(now) => Purged(t, now)
    case Exchanging(presented, binding, ttl, value, now) =>
      if Exchanges(t, presented, ttl, value, now) then Exchanged(t, presented, binding, ttl, value, now) else t
    case LoggingIn(c, verifiedAt, value, now) =>
      if Check(v, c, verifiedAt).None? && LogsIn(t, c, value) then LoggedIn(t, c, value, now) else t
    case PurgingSpent(now) => SpentPurged(t, now)
  }

  function Run(v: Verifier, t: Tables, ops: seq<Op>): Tables
    decreases |ops|
  {
    if ops == [] then t else Run(v, Apply(v, t, ops[0]), ops[1..])
  }

  predicate Makes(op: Op) { op.Inserting? || op.Exchanging? || op.LoggingIn? }

  function Used(used: set<Text>, op: Op): set<Text> { if Makes(op) then used + {op.value} else used }

  // Random token values do not come up twice.
  predicate FreshValues(used: set<Text>, ops: seq<Op>)
    decreases |ops|
  {
    ops == [] || ((Makes(ops[0]) ==> ops[0].value !in used) && FreshValues(Used(used, ops[0]), ops[1..]))
  }

  predicate Holds(t: Tables, used: set<Text>) { t.tokens.Keys <= used }

  // Everything about a token but its two marks, and about an identity but its one.
  predicate SameToken(a: Token, b: Token) {
    && b == a.(revoked := b.revoked, consumed := b.consumed)
    && (a.revoked.Some? ==> b.revoked == a.revoked) && (a.consumed.Some? ==> b.consumed == a.consumed)
  }

  predicate SameIdentity(a: Identity, b: Identity) {
    b == a.(disabled := b.disabled) && (a.disabled.Some? ==> b.disabled == a.disabled)
  }

  // Identities are never dropped, and no row is altered but to mark it, once.
  predicate Later(t: Tables, u: Tables, used: set<Text>) {
    && (forall id :: id in t.identities ==> id in u.identities && SameIdentity(t.identities[id], u.identities[id]))
    && (forall v :: v in used && v in u.tokens ==> v in t.tokens && SameToken(t.tokens[v], u.tokens[v]))
  }

  lemma ApplyLater(v: Verifier, t: Tables, op: Op, used: set<Text>)
    requires Holds(t, used) && FreshValues(used, [op])
    ensures Later(t, Apply(v, t, op), used) && Holds(Apply(v, t, op), Used(used, op))
  {
    hide Check, LooksLikeToken, IdentityFault;
    if Makes(op) {
      MakingLater(v, t, op, used);
    }
  }

  lemma MakingLater(v: Verifier, t: Tables, op: Op, used: set<Text>)
    requires Holds(t, used) && FreshValues(used, [op]) && Makes(op)
    ensures Later(t, Apply(v, t, op), used) && Holds(Apply(v, t, op), Used(used, op))
  {
    hide Check, LooksLikeToken, IdentityFault, Registered, Disabled, RevokedOne, RevokedFor, Purged, SpentPurged;
  }

  lemma LaterTransitive(t: Tables, u: Tables, w: Tables, used: set<Text>, more: set<Text>)
    requires Later(t, u, used) && Later(u, w, more) && used <= more
    ensures Later(t, w, used)
  {}

  // Over any run, an identity keeps its tenant and kind and stays disabled, and a
  // token keeps what it was issued with and stays revoked or consumed.
  lemma {:induction false} RunLater(v: Verifier, t: Tables, ops: seq<Op>, used: set<Text>)
    requires Holds(t, used) && FreshValues(used, ops)
    ensures Later(t, Run(v, t, ops), used)
    decreases |ops|
  {
    hide Later, Apply, Holds;
    if ops == [] {
      LaterReflexive(t, used);
    } else {
      var u := Apply(v, t, ops[0]);
      assert FreshValues(used, [ops[0]]);
      ApplyLater(v, t, ops[0], used);
      RunLater(v, u, ops[1..], Used(used, ops[0]));
      LaterTransitive(t, u, Run(v, t, ops), used, Used(used, ops[0]));
    }
  }

  lemma LaterReflexive(t: Tables, used: set<Text>)
    requires Holds(t, used)
    ensures Later(t, t, used)
  {}

  // A value once issued authenticates only the identity it was issued to, with the
  // binding it was issued with; revoked, or its identity disabled, it never does again.
  lemma RevokedNeverAuthenticates(
      v: Verifier, t: Tables, ops: seq<Op>, used: set<Text>, value: Text, binding: Text, now: int)
    requires Holds(t, used) && FreshValues(used, ops) && value in used
    ensures var u := Run(v, t, ops);
      Authenticates(u, value, binding, now) ==>
        && value in t.tokens && t.tokens[value].revoked.None? && !t.tokens[value].single
        && u.tokens[value].identity == t.tokens[value].identity && binding == t.tokens[value].binding
        && (t.tokens[value].identity in t.identities ==> t.identities[t.tokens[value].identity].disabled.None?)
  {
    hide LooksLikeToken;
    RunLater(v, t, ops, used);
  }

  // No token, old or new, authenticates as an identity that was ever disabled.
  lemma DisabledNeverAuthenticates(
      v: Verifier, t: Tables, ops: seq<Op>, used: set<Text>, id: Text, value: Text, binding: Text, now: int)
    requires Holds(t, used) && FreshValues(used, ops) && id in t.identities && t.identities[id].disabled.Some?
    ensures var u := Run(v, t, ops);
      !(Authenticates(u, value, binding, now) && u.tokens[value].identity == id)
  {
    hide LooksLikeToken;
    RunLater(v, t, ops, used);
  }

  // ---- what an issued token is good for ----

  // No step revokes the token or all of its identity's, disables the identity, or
  // purges from its expiry on.
  predicate Spares(op: Op, id: Text, value: Text, expires: int) {
    && !(op.Revoking? && op.value == value)
    && !(op.RevokingFor? && op.id == id)
    && !(op.Disabling? && op.id == id)
    && !(op.Purging? && op.now >= expires)
  }

  predicate AllSpare(ops: seq<Op>, id: Text, value: Text, expires: int) {
    forall i :: 0 <= i < |ops| ==> Spares(ops[i], id, value, expires)
  }

  predicate Stands(t: Tables, id: Text, value: Text, token: Token) {
    value in t.tokens && t.tokens[value] == token && id in t.identities && t.identities[id].disabled.None?
  }

  lemma ReusableStands(v: Verifier, t: Tables, op: Op, used: set<Text>, id: Text, value: Text, token: Token)
    requires value in used && FreshValues(used, [op])
    requires Stands(t, id, value, token) && token.identity == id && Spares(op, id, value, token.expires)
    requires token.single ==> !(op.Exchanging? && op.presented == value)
    ensures Stands(Apply(v, t, op), id, value, token)
  {
    hide Check, LooksLikeToken, IdentityFault, Enrols;
  }

  lemma {:induction false} RunStands(v: Verifier, t: Tables, ops: seq<Op>, used: set<Text>, id: Text, value: Text, token: Token)
    requires value in used && FreshValues(used, ops)
    requires Stands(t, id, value, token) && token.identity == id && AllSpare(ops, id, value, token.expires)
    requires token.single ==> forall i :: 0 <= i < |ops| ==> !(ops[i].Exchanging? && ops[i].presented == value)
    ensures Stands(Run(v, t, ops), id, value, token)
    decreases |ops|
  {
    hide Apply, Stands;
    if ops != [] {
      assert FreshValues(used, [ops[0]]);
      ReusableStands(v, t, ops[0], used, id, value, token);
      RunStands(v, Apply(v, t, ops[0]), ops[1..], Used(used, ops[0]), id, value, token);
    }
  }

  // After an ordinary token has been issued, and whatever has happened that spares it,
  // presenting it answers its identity exactly with its binding and until its expiry.
  lemma IssuedAuthenticates(
      v: Verifier, t: Tables, ops: seq<Op>, used: set<Text>,
      id: Text, binding: Text, ttl: int, value: Text, now: int, presented: Text, at: int)
    requires Issues(t, id, ttl, value) && LooksLikeToken(value)
    requires FreshValues(used + {value}, ops) && AllSpare(ops, id, value, now + ttl)
    ensures Apply(v, t, Inserting(id, binding, ttl, false, value, now)) == Issued(t, id, binding, ttl, false, value, now)
    ensures var u := Run(v, Issued(t, id, binding, ttl, false, value, now), ops);
      Answered(u, value, presented, at)
        == if presented == binding && at < now + ttl then Success(id) else Failure(Unauthenticated)
  {
    hide LooksLikeToken, Run;
    var token := Token(id, binding, now, now + ttl, false, None, None);
    RunStands(v, Issued(t, id, binding, ttl, false, value, now), ops, used + {value}, id, value, token);
  }

  // A bootstrap token that is spared and not yet exchanged can be until its expiry, for
  // a session of its identity; and it never authenticates.
  lemma BootstrapExchanges(
      v: Verifier, t: Tables, ops: seq<Op>, used: set<Text>,
      id: Text, ttl: int, value: Text, now: int, session: Text, sessionTtl: int, binding: Text, at: int)
    requires Issues(t, id, ttl, value) && LooksLikeToken(value)
    requires FreshValues(used + {value}, ops) && AllSpare(ops, id, value, now + ttl)
    requires forall i :: 0 <= i < |ops| ==> !(ops[i].Exchanging? && ops[i].presented == value)
    ensures Apply(v, t, Inserting(id, NO_BINDING, ttl, true, value, now)) == Issued(t, id, NO_BINDING, ttl, true, value, now)
    ensures var u := Run(v, Issued(t, id, NO_BINDING, ttl, true, value, now), ops);
      && Answered(u, value, binding, at) == Failure(Unauthenticated)
      && (Exchanges(u, value, sessionTtl, session, at) <==>
           at < now + ttl && 0 < sessionTtl <= MAXIMUM_TTL && session !in u.tokens)
      && (Exchanges(u, value, sessionTtl, session, at) && LooksLikeToken(session) ==>
           Answered(Exchanged(u, value, binding, sessionTtl, session, at), session, binding, at) == Success(id))
  {
    hide LooksLikeToken, Run;
    var token := Token(id, NO_BINDING, now, now + ttl, true, None, None);
    RunStands(v, Issued(t, id, NO_BINDING, ttl, true, value, now), ops, used + {value}, id, value, token);
  }

  // A session that a login issues answers the assertion's subject for an hour.
  lemma LoginAuthenticates(
      v: Verifier, t: Tables, ops: seq<Op>, used: set<Text>, c: Claims, value: Text, now: int, presented: Text, at: int)
    requires LogsIn(t, c, value) && LooksLikeToken(value)
    requires FreshValues(used + {value}, ops) && AllSpare(ops, c.subject, value, now + 3600 * SECOND)
    ensures var u := Run(v, LoggedIn(t, c, value, now), ops);
      Answered(u, value, presented, at)
        == if presented == [] && at < now + 3600 * SECOND then Success(c.subject) else Failure(Unauthenticated)
  {
    hide LooksLikeToken, Run;
    var token := Token(c.subject, NO_BINDING, now, now + INSTANCE_TTL, false, None, None);
    RunStands(v, LoggedIn(t, c, value, now), ops, used + {value}, c.subject, value, token);
  }

  // An assertion that names the verifier's issuer and audience, a subject, an id and a
  // tenant passes from the latest of the times it names to its expiry, with the skew
  // allowed at both ends.
  lemma AcceptedWindow(v: Verifier, c: Claims, now: int)
    ensures Check(v, c, now).None? <==>
      && c.issuer == v.issuer && v.audience in c.audience && c.subject != [] && c.id != [] && c.tenant != []
      && c.expires != 0 && now < c.expires * SECOND + v.skew
      && (c.notBefore != 0 ==> c.notBefore * SECOND - v.skew <= now)
      && (c.issuedAt != 0 ==> c.issuedAt * SECOND - v.skew <= now)
  {}

  // ---- a bootstrap token buys at most one session ----

  predicate Buys(v: Verifier, t: Tables, op: Op, presented: Text) {
    op.Exchanging? && op.presented == presented && Exchanges(t, presented, op.ttl, op.value, op.now)
  }

  function Sessions(v: Verifier, t: Tables, ops: seq<Op>, presented: Text): nat
    decreases |ops|
  {
    if ops == [] then 0
    else (if Buys(v, t, ops[0], presented) then 1 else 0) + Sessions(v, Apply(v, t, ops[0]), ops[1..], presented)
  }

  // Used up: known, and no longer to be consumed.
  predicate UsedUp(t: Tables, used: set<Text>, presented: Text) {
    presented in used && (presented in t.tokens ==> t.tokens[presented].consumed.Some?)
  }

  lemma {:induction false} UsedUpBuysNothing(v: Verifier, t: Tables, ops: seq<Op>, used: set<Text>, presented: Text)
    requires Holds(t, used) && FreshValues(used, ops) && UsedUp(t, used, presented)
    ensures Sessions(v, t, ops, presented) == 0
    decreases |ops|
  {
    hide Apply, Later, Holds, UsedUp, LooksLikeToken;
    if ops != [] {
      assert FreshValues(used, [ops[0]]);
      ApplyLater(v, t, ops[0], used);
      StaysUsedUp(t, Apply(v, t, ops[0]), used, Used(used, ops[0]), presented);
      UsedUpBuysNothing(v, Apply(v, t, ops[0]), ops[1..], Used(used, ops[0]), presented);
    }
  }

  lemma StaysUsedUp(t: Tables, u: Tables, used: set<Text>, more: set<Text>, presented: Text)
    requires UsedUp(t, used, presented) && Later(t, u, used) && used <= more
    ensures UsedUp(u, more, presented)
    ensures forall ttl, value, now :: !Exchanges(t, presented, ttl, value, now)
  {}

  lemma BoughtUsesUp(v: Verifier, t: Tables, op: Op, used: set<Text>, presented: Text)
    requires Holds(t, used) && FreshValues(used, [op]) && Buys(v, t, op, presented)
    ensures UsedUp(Apply(v, t, op), Used(used, op), presented)
  {
    hide LooksLikeToken;
  }

  // In any interleaving, whatever is purged or revoked meanwhile.
  lemma {:induction false} BootstrapBuysOnce(v: Verifier, t: Tables, ops: seq<Op>, used: set<Text>, presented: Text)
    requires Holds(t, used) && FreshValues(used, ops)
    ensures Sessions(v, t, ops, presented) <= 1
    decreases |ops|
  {
    hide Apply, Holds, UsedUp, Buys;
    if ops != [] {
      var op := ops[0];
      assert FreshValues(used, [op]);
      ApplyLater(v, t, op, used);
      if Buys(v, t, op, presented) {
        BoughtUsesUp(v, t, op, used, presented);
        UsedUpBuysNothing(v, Apply(v, t, op), ops[1..], Used(used, op), presented);
      } else {
        BootstrapBuysOnce(v, Apply(v, t, op), ops[1..], Used(used, op), presented);
      }
    }
  }

  // ---- an assertion buys at most one session ----

  predicate LoginBuys(v: Verifier, t: Tables, op: Op, c: Claims) {
    op.LoggingIn? && op.claims == c && Check(v, c, op.verifiedAt).None? && LogsIn(t, c, op.value)
  }

  function Logins(v: Verifier, t: Tables, ops: seq<Op>, c: Claims): nat
    decreases |ops|
  {
    if ops == [] then 0
    else (if LoginBuys(v, t, ops[0], c) then 1 else 0) + Logins(v, Apply(v, t, ops[0]), ops[1..], c)
  }

  // The clock does not go back, and an assertion is verified at most a delay before
  // the transaction that spends it.
  predicate Timely(ops: seq<Op>, delay: nat, clock: int)
    decreases |ops|
  {
    ops == [] || (
      && clock <= ops[0].now
      && (ops[0].LoggingIn? ==> ops[0].now - delay <= ops[0].verifiedAt <= ops[0].now)
      && Timely(ops[1..], delay, ops[0].now))
  }

  // Spent assertions are purged only once they are past their expiry by a grace. The
  // purge itself knows no grace: with none this asks nothing.
  predicate PurgesAfter(v: Verifier, t: Tables, ops: seq<Op>, grace: nat)
    decreases |ops|
  {
    ops == [] || (
      && (ops[0].PurgingSpent? ==>
           forall i :: i in t.spent && t.spent[i].expires <= ops[0].now ==> t.spent[i].expires + grace <= ops[0].now)
      && PurgesAfter(v, Apply(v, t, ops[0]), ops[1..], grace))
  }

  // Remembered, or past its expiry by the grace.
  predicate Burnt(t: Tables, c: Claims, grace: nat, clock: int) {
    (c.id in t.spent && t.spent[c.id].expires == c.expires * SECOND) || c.expires * SECOND + grace <= clock
  }

  lemma StaysBurnt(v: Verifier, t: Tables, op: Op, c: Claims, delay: nat, grace: nat, clock: int)
    requires v.skew + delay <= grace && Burnt(t, c, grace, clock)
    requires Timely([op], delay, clock) && PurgesAfter(v, t, [op], grace)
    ensures !LoginBuys(v, t, op, c)
    ensures Burnt(Apply(v, t, op), c, grace, op.now)
  {
    hide LooksLikeToken, IdentityFault, Exchanges, Enrols;
  }

  lemma {:induction false} BurntBuysNothing(
      v: Verifier, t: Tables, ops: seq<Op>, c: Claims, delay: nat, grace: nat, clock: int)
    requires v.skew + delay <= grace && Burnt(t, c, grace, clock)
    requires Timely(ops, delay, clock) && PurgesAfter(v, t, ops, grace)
    ensures Logins(v, t, ops, c) == 0
    decreases |ops|
  {
    hide Apply, Burnt, LoginBuys;
    if ops != [] {
      var op := ops[0];
      assert Timely([op], delay, clock) && PurgesAfter(v, t, [op], grace);
      StaysBurnt(v, t, op, c, delay, grace, clock);
      BurntBuysNothing(v, Apply(v, t, op), ops[1..], c, delay, grace, op.now);
    }
  }

  // Where the grace covers skew and delay, each assertion buys at most one session.
  lemma {:induction false} AssertionBuysOnce(
      v: Verifier, t: Tables, ops: seq<Op>, c: Claims, delay: nat, grace: nat, clock: int)
    requires v.skew + delay <= grace && Timely(ops, delay, clock) && PurgesAfter(v, t, ops, grace)
    ensures Logins(v, t, ops, c) <= 1
    decreases |ops|
  {
    hide Apply, Burnt, LoginBuys;
    if ops != [] {
      var op := ops[0];
      if LoginBuys(v, t, op, c) {
        LoginBurns(v, t, op, c, grace);
        BurntBuysNothing(v, Apply(v, t, op), ops[1..], c, delay, grace, op.now);
      } else {
        AssertionBuysOnce(v, Apply(v, t, op), ops[1..], c, delay, grace, op.now);
      }
    }
  }

  lemma LoginBurns(v: Verifier, t: Tables, op: Op, c: Claims, grace: nat)
    requires LoginBuys(v, t, op, c)
    ensures Burnt(Apply(v, t, op), c, grace, op.now)
  {
    hide IdentityFault, Check;
  }

  // Every run with at most this delay whose purges leave at least this grace.
  ghost predicate EveryAssertionOnce(v: Verifier, delay: nat, grace: nat) {
    forall t: Tables, ops: seq<Op>, c: Claims, clock: int ::
      FreshValues(t.tokens.Keys, ops) && Timely(ops, delay, clock) && PurgesAfter(v, t, ops, grace) ==>
        Logins(v, t, ops, c) <= 1
  }

  function Empty(): Tables { Tables(map[], map[], map[]) }

  function Replayable(v: Verifier): Claims { Claims(v.issuer, [105], [v.audience], 10, 0, 0, [106], [116]) }

  const EXPIRY := 10 * SECOND

  // Log in, purge once the grace is over, log in again with the oldest verification
  // that the delay allows.
  function ReplayRun(v: Verifier, delay: nat, grace: nat): seq<Op> {
    var c := Replayable(v);
    [LoggingIn(c, 0, [1], 0), PurgingSpent(EXPIRY + grace), LoggingIn(c, EXPIRY + grace - delay, [2], EXPIRY + grace)]
  }

  lemma FirstStep(v: Verifier, t: Tables, op: Op, rest: seq<Op>, c: Claims, used: set<Text>,
                  delay: nat, grace: nat, clock: int)
    ensures Logins(v, t, [op] + rest, c) == (if LoginBuys(v, t, op, c) then 1 else 0) + Logins(v, Apply(v, t, op), rest, c)
    ensures (FreshValues(used, [op] + rest) <==>
      (Makes(op) ==> op.value !in used) && FreshValues(Used(used, op), rest))
    ensures (Timely([op] + rest, delay, clock) <==>
      && clock <= op.now && (op.LoggingIn? ==> op.now - delay <= op.verifiedAt <= op.now)
      && Timely(rest, delay, op.now))
    ensures (PurgesAfter(v, t, [op] + rest, grace) <==>
      && (op.PurgingSpent? ==>
           forall i :: i in t.spent && t.spent[i].expires <= op.now ==> t.spent[i].expires + grace <= op.now)
      && PurgesAfter(v, Apply(v, t, op), rest, grace))
  {
    hide LoginBuys, Apply;
    assert ([op] + rest)[1..] == rest;
  }

  // Where the grace does not cover skew and delay, one assertion buys two sessions.
  lemma ReplaySucceeds(v: Verifier, delay: nat, grace: nat)
    requires v.Valid() && v.skew + delay > grace
    ensures var ops := ReplayRun(v, delay, grace);
      && FreshValues({}, ops) && Timely(ops, delay, 0) && PurgesAfter(v, Empty(), ops, grace)
      && Logins(v, Empty(), ops, Replayable(v)) == 2
  {
    hide FreshValues, Timely, Logins, Apply, LoginBuys, PurgesAfter;
    var c := Replayable(v);
    var first, purge, again := ReplayRun(v, delay, grace)[0], ReplayRun(v, delay, grace)[1], ReplayRun(v, delay, grace)[2];
    var t1 := Apply(v, Empty(), first);
    var t2 := Apply(v, t1, purge);
    ReplaySteps(v, delay, grace);
    assert ReplayRun(v, delay, grace) == [first] + [purge, again];
    assert [purge, again] == [purge] + [again] && [again] == [again] + [];
    FirstStep(v, Empty(), first, [purge, again], c, {}, delay, grace, 0);
    FirstStep(v, t1, purge, [again], c, {[1]}, delay, grace, 0);
    FirstStep(v, t2, again, [], c, {[1]}, delay, grace, EXPIRY + grace);
    NoSteps(v, Apply(v, t2, again), c, {[1], [2]}, delay, grace, EXPIRY + grace);
    assert {} + {[1]} == {[1]} && {[1]} + {[2]} == {[1], [2]};
  }

  lemma NoSteps(v: Verifier, t: Tables, c: Claims, used: set<Text>, delay: nat, grace: nat, clock: int)
    ensures Logins(v, t, [], c) == 0 && FreshValues(used, []) && Timely([], delay, clock) && PurgesAfter(v, t, [], grace)
  {}

  lemma ReplaySteps(v: Verifier, delay: nat, grace: nat)
    requires v.Valid() && v.skew + delay > grace
    ensures var c, ops := Replayable(v), ReplayRun(v, delay, grace);
      var t1 := Apply(v, Empty(), ops[0]);
      var t2 := Apply(v, t1, ops[1]);
      && LoginBuys(v, Empty(), ops[0], c) && !LoginBuys(v, t1, ops[1], c) && LoginBuys(v, t2, ops[2], c)
      && forall i :: i in t1.spent ==> t1.spent[i].expires == EXPIRY
  {
    var ops := ReplayRun(v, delay, grace);
    var t1 := Apply(v, Empty(), ops[0]);
    var t2 := Apply(v, t1, ops[1]);
    assert t1.spent == map[[106] := Spent([105], 0, EXPIRY)];
    assert t2.spent == map[];
    assert t2.identities[[105]] == Identity(KindInstance, [116], 0, None);
    assert t2.tokens.Keys <= {[1]};
  }

  // Each assertion buys at most one session in every such run if and only if the grace
  // covers the verifier's skew and the delay together. The purge leaves no grace, so:
  // if and only if there is neither skew nor delay.
  lemma AssertionsOnceExactly(v: Verifier, delay: nat, grace: nat)
    requires v.Valid()
    ensures EveryAssertionOnce(v, delay, grace) <==> v.skew + delay <= grace
    ensures EveryAssertionOnce(v, delay, 0) <==> v.skew == 0 && delay == 0
  {
    OnceExactly(v, delay, grace);
    OnceExactly(v, delay, 0);
  }

  lemma OnceExactly(v: Verifier, delay: nat, grace: nat)
    requires v.Valid()
    ensures EveryAssertionOnce(v, delay, grace) <==> v.skew + delay <= grace
  {
    hide Logins, Timely, FreshValues, PurgesAfter, ReplayRun;
    if v.skew + delay <= grace {
      forall t: Tables, ops: seq<Op>, c: Claims, clock: int
        | FreshValues(t.tokens.Keys, ops) && Timely(ops, delay, clock) && PurgesAfter(v, t, ops, grace)
        ensures Logins(v, t, ops, c) <= 1
      {
        AssertionBuysOnce(v, t, ops, c, delay, grace, clock);
      }
    } else {
      ReplaySucceeds(v, delay, grace);
      assert Empty().tokens.Keys == {};
    }
  }

  // Without grace the condition on purges is no condition.
  lemma {:induction false} AnyPurgeIsAfterNone(v: Verifier, t: Tables, ops: seq<Op>)
    ensures PurgesAfter(v, t, ops, 0)
    decreases |ops|
  {
    hide Apply;
    if ops != [] {
      AnyPurgeIsAfterNone(v, Apply(v, t, ops[0]), ops[1..]);
    }
  }
}
