/** The parameter table, and the rewrap walk over it when nothing else writes. */
module ParamStore {
  import opened Wrappers
  import opened Encoding
  import opened Envelopes
  import opened Cipher
  import opened Limits
  import opened Ordering
  import opened Paths

  const STORED_VERSION := 1
  const BATCH := 100
  const NAMESPACE: Text := [112, 97, 114, 97, 109]

  datatype ParamKey = ParamKey(tenant: Text, path: Text)

  datatype Row = Row(kind: Text, envelope: Envelope, updatedAt: int, updatedBy: Text)

  function PolicyPath(k: ParamKey): Text {
    NAMESPACE + [SLASH] + k.tenant + [SLASH] + k.path
  }

  function Locate(k: ParamKey): AAD {
    AAD(k.tenant, PolicyPath(k), STORED_VERSION)
  }

  // What is sealed for one parameter opens for that parameter and no other, in any tenant.
  lemma OpensOnlyThere(keys: Keys, k: ParamKey, plaintext: Text, random: Random, other: ParamKey)
    requires SealFor(keys, k.tenant, plaintext, Locate(k), random).Success?
    ensures var result := OpenFor(keys.root, other.tenant, SealFor(keys, k.tenant, plaintext, Locate(k), random).value,
                              Locate(other));
      if other == k then result == Success(plaintext) else result.Failure?
  {
    hide SealFor, OpenFor;
    OpensOnlyForItsTenant(keys, k.tenant, plaintext, Locate(k), random, keys.root, other.tenant, Locate(other));
    if Locate(other) == Locate(k) {
      var n := |NAMESPACE + [SLASH] + k.tenant + [SLASH]|;
      assert PolicyPath(k)[n..] == k.path && PolicyPath(other)[n..] == other.path;
    }
  }

  // ---- key order ----

  predicate KeyLess(a: ParamKey, b: ParamKey) {
    Less(a.tenant, b.tenant) || (a.tenant == b.tenant && Less(a.path, b.path))
  }

  lemma KeyLessTransitive(a: ParamKey, b: ParamKey, c: ParamKey)
    requires KeyLess(a, b) && KeyLess(b, c)
    ensures KeyLess(a, c)
  {
    if Less(a.tenant, b.tenant) && Less(b.tenant, c.tenant) {
      LessTransitive(a.tenant, b.tenant, c.tenant);
    } else if a.tenant == b.tenant == c.tenant {
      LessTransitive(a.path, b.path, c.path);
    }
  }

  lemma KeyLessTotal(a: ParamKey, b: ParamKey)
    ensures KeyLess(a, b) || a == b || KeyLess(b, a)
    ensures !(KeyLess(a, b) && KeyLess(b, a))
    ensures !KeyLess(a, a)
  {
    LessTotal(a.tenant, b.tenant);
    LessTotal(a.path, b.path);
    LessTotal(a.tenant, a.tenant);
    LessTotal(a.path, a.path);
  }

  const Start := ParamKey([], [])

  // k is the first key beyond the cursor.
  predicate IsNext(keys: set<ParamKey>, at: ParamKey, k: ParamKey) {
    k in keys && KeyLess(at, k) && forall j :: j in keys && KeyLess(at, j) ==> !KeyLess(j, k)
  }

  predicate InOrder(keys: set<ParamKey>, at: ParamKey, batch: seq<ParamKey>) {
    && (batch != [] ==> IsNext(keys, at, batch[0]))
    && (forall i :: 0 < i < |batch| ==> IsNext(keys, batch[i - 1], batch[i]))
  }

  predicate NothingBeyond(keys: set<ParamKey>, at: ParamKey) {
    forall k :: k in keys ==> !KeyLess(at, k)
  }

  ghost function Beyond(keys: set<ParamKey>, at: ParamKey): set<ParamKey> {
    set k | k in keys && KeyLess(at, k)
  }

  lemma NextSplits(keys: set<ParamKey>, at: ParamKey, k: ParamKey)
    requires IsNext(keys, at, k)
    ensures Beyond(keys, at) == Beyond(keys, k) + {k}
    ensures k !in Beyond(keys, k)
  {
    KeyLessTotal(k, k);
    forall j | j in keys ensures KeyLess(at, j) <==> KeyLess(k, j) || j == k {
      KeyLessTotal(j, k);
      if KeyLess(k, j) {
        KeyLessTransitive(at, k, j);
      }
    }
  }

  // ---- the walk's outcome ----

  // The nonce drawn for each row.
  type Nonces = ParamKey -> nat

  function Moved(keys: Keys, k: ParamKey, envelope: Envelope, nonces: Nonces): Result<Rewrapped, CipherError> {
    RewrapFor(keys, k.tenant, envelope, Locate(k), nonces(k))
  }

  // Every row up to the cursor rewrapped, the rest as it was.
  function WalkedTo(keys: Keys, rows: map<ParamKey, Row>, nonces: Nonces, beyond: set<ParamKey>): map<ParamKey, Row> {
    map k | k in rows ::
      if k in beyond || Moved(keys, k, rows[k].envelope, nonces).Failure? then rows[k]
      else rows[k].(envelope := Moved(keys, k, rows[k].envelope, nonces).value.envelope)
  }

  datatype Progress = Progress(examined: nat, rewrapped: nat)

  ghost function Stale(keys: Keys, rows: map<ParamKey, Row>, beyond: set<ParamKey>): set<ParamKey> {
    set k | k in rows && k !in beyond && rows[k].envelope.kekVersion != keys.kekVersion
  }

  // One more row: the cursor moves to the next key and that row is rewrapped.
  lemma WalkOneMore(keys: Keys, rows: map<ParamKey, Row>, nonces: Nonces, at: ParamKey, k: ParamKey)
    requires IsNext(rows.Keys, at, k) && Moved(keys, k, rows[k].envelope, nonces).Success?
    ensures var moved := Moved(keys, k, rows[k].envelope, nonces).value;
      var was, now := Beyond(rows.Keys, at), Beyond(rows.Keys, k);
      && k in rows
      && now < was && |was| == |now| + 1
      && WalkedTo(keys, rows, nonces, was)[k] == rows[k]
      && WalkedTo(keys, rows, nonces, now) == WalkedTo(keys, rows, nonces, was)[k := rows[k].(envelope := moved.envelope)]
      && moved.envelope == rows[k].envelope.(kekVersion := moved.envelope.kekVersion, wrappedDek := moved.envelope.wrappedDek)
      && (!moved.changed ==> moved.envelope == rows[k].envelope)
      && |Stale(keys, rows, now)| == |Stale(keys, rows, was)| + if moved.changed then 1 else 0
  {
    hide RewrapFor, KeyLess, Locate;
    var was, now := Beyond(rows.Keys, at), Beyond(rows.Keys, k);
    NextSplits(rows.Keys, at, k);
    RewrapForKeepsMeaning(keys, k.tenant, rows[k].envelope, Locate(k), nonces(k));
    UnchangedIsSame(keys, k.tenant, rows[k].envelope, Locate(k), nonces(k));
    if rows[k].envelope.kekVersion != keys.kekVersion {
      assert Stale(keys, rows, now) == Stale(keys, rows, was) + {k};
    } else {
      assert Stale(keys, rows, now) == Stale(keys, rows, was);
    }
  }

  ghost function NotBefore(keys: set<ParamKey>, k: ParamKey): set<ParamKey> {
    set j | j in keys && !KeyLess(j, k)
  }

  ghost predicate MovesUpTo(keys: Keys, rows: map<ParamKey, Row>, nonces: Nonces, beyond: set<ParamKey>) {
    forall k :: k in rows && k !in beyond ==> Moved(keys, k, rows[k].envelope, nonces).Success?
  }

  // The row at the next key is the stored one, and the rows before it have moved.
  lemma NextKeeps(keys: Keys, rows: map<ParamKey, Row>, nonces: Nonces, at: ParamKey, k: ParamKey)
    requires IsNext(rows.Keys, at, k) && MovesUpTo(keys, rows, nonces, Beyond(rows.Keys, at))
    ensures k in rows && WalkedTo(keys, rows, nonces, Beyond(rows.Keys, at))[k] == rows[k]
    ensures Beyond(rows.Keys, at) == NotBefore(rows.Keys, k)
    ensures forall j :: j in rows && KeyLess(j, k) ==> Moved(keys, j, rows[j].envelope, nonces).Success?
    ensures Moved(keys, k, rows[k].envelope, nonces).Success? ==> MovesUpTo(keys, rows, nonces, Beyond(rows.Keys, k))
  {
    hide RewrapFor, KeyLess;
    NextSplits(rows.Keys, at, k);
    forall j | j in rows ensures KeyLess(at, j) <==> !KeyLess(j, k) {
      KeyLessTotal(j, k);
      if KeyLess(k, j) {
        KeyLessTransitive(at, k, j);
      }
      if KeyLess(j, k) {
        KeyLessTotal(j, k);
      }
    }
  }

  lemma WalkStarts(keys: Keys, rows: map<ParamKey, Row>, nonces: Nonces)
    requires forall k :: k in rows ==> k.tenant != []
    ensures Beyond(rows.Keys, Start) == rows.Keys
    ensures WalkedTo(keys, rows, nonces, rows.Keys) == rows
    ensures Stale(keys, rows, rows.Keys) == {}
  {
    hide RewrapFor;
  }

  lemma UnchangedIsSame(keys: Keys, tenant: Text, envelope: Envelope, aad: AAD, nonce: nat)
    requires RewrapFor(keys, tenant, envelope, aad, nonce).Success?
    ensures var r := RewrapFor(keys, tenant, envelope, aad, nonce).value;
      !r.changed ==> r.envelope == envelope
  {}

  const MAX_VALUE_LEN := 0x1_0000

  datatype ParamError = InvalidTenant | InvalidPath | InvalidKind | ValueTooLarge | InvalidValue | NotSealed(cause: CipherError)

  predicate Puttable(k: ParamKey, raw: Text, accepted: bool) {
    0 < |k.tenant| <= MAX_TENANT_LEN && SafePath(k.path) && |raw| <= MAX_VALUE_LEN && accepted
  }

  class Store {
    var rows: map<ParamKey, Row>

    constructor ()
      ensures rows == map[]
    {
      rows := map[];
    }

    // known and accepted are what the kind is and what it says of the value. What has been put opens to the value
    // put, and no other parameter is touched.
    method Put(keys: Keys, k: ParamKey, kind: Text, raw: Text, known: bool, accepted: bool, random: Random,
               now: int, actor: Text)
        returns (error: Option<ParamError>)
      modifies this
      ensures error.None? <==> Puttable(k, raw, known && accepted) && SealFor(keys, k.tenant, raw, Locate(k), random).Success?
      ensures error.Some? ==> rows == old(rows)
      ensures error.Some? && error.value.NotSealed? <==> Puttable(k, raw, known && accepted) && error.Some?
      ensures (error.Some? && !error.value.NotSealed? ==>
        error.value ==
          if !(0 < |k.tenant| <= 64) then InvalidTenant else if !SafePath(k.path) then InvalidPath
          else if !known then InvalidKind else if |raw| > 65_536 then ValueTooLarge else InvalidValue)
      ensures error.None? ==> rows.Keys == old(rows).Keys + {k}
      ensures error.None? ==> forall j :: j in rows && j != k ==> rows[j] == old(rows)[j]
      ensures error.None? ==>
        && rows[k].kind == kind && rows[k].updatedAt == now && rows[k].updatedBy == actor
        && rows[k].envelope.kekVersion == keys.kekVersion
        && OpenFor(keys.root, k.tenant, rows[k].envelope, Locate(k)) == Success(raw)
    {
      hide SealFor, OpenFor, Locate, SafePath;
      if k.tenant == [] || |k.tenant| > MAX_TENANT_LEN {
        return Some(InvalidTenant);
      } else if !SafePath(k.path) {
        return Some(InvalidPath);
      } else if !known {
        return Some(InvalidKind);
      } else if |raw| > MAX_VALUE_LEN {
        return Some(ValueTooLarge);
      } else if !accepted {
        return Some(InvalidValue);
      }
      var sealed := SealFor(keys, k.tenant, raw, Locate(k), random);
      if sealed.Failure? {
        return Some(NotSealed(sealed.error));
      }
      OpensOnlyForItsTenant(keys, k.tenant, raw, Locate(k), random, keys.root, k.tenant, Locate(k));
      SealVersion(keys, k.tenant, raw, Locate(k), random);
      rows := rows[k := Row(kind, sealed.value, now, actor)];
      return None;
    }

    method Delete(k: ParamKey) returns (found: bool)
      modifies this
      ensures rows == old(rows) - {k}
      ensures found <==> k in old(rows)
    {
      found := k in rows;
      rows := rows - {k};
    }

    method FirstBeyond(at: ParamKey) returns (k: Option<ParamKey>)
      ensures k.None? ==> NothingBeyond(rows.Keys, at)
      ensures k.Some? ==> IsNext(rows.Keys, at, k.value)
    {
      k := None;
      var left := rows.Keys;
      while left != {}
        invariant left <= rows.Keys
        invariant k.None? ==> forall j :: j in rows.Keys - left ==> !KeyLess(at, j)
        invariant k.Some? ==> k.value in rows.Keys && KeyLess(at, k.value)
        invariant k.Some? ==> forall j :: j in rows.Keys - left && KeyLess(at, j) ==> !KeyLess(j, k.value)
        decreases left
      {
        var j :| j in left;
        left := left - {j};
        if KeyLess(at, j) && (k.None? || KeyLess(j, k.value)) {
          forall i | i in rows.Keys - left && KeyLess(at, i) ensures !KeyLess(i, j) {
            KeyLessTotal(j, j);
            if i != j && k.Some? && KeyLess(i, j) {
              KeyLessTransitive(i, j, k.value);
            }
          }
          k := Some(j);
        }
      }
    }

    // The rows the query returns: in key order from the cursor, at most BATCH.
    method RewrapBatch(at: ParamKey) returns (batch: seq<ParamKey>)
      ensures |batch| <= BATCH
      ensures InOrder(rows.Keys, at, batch)
      ensures |batch| < BATCH ==> NothingBeyond(rows.Keys, if batch == [] then at else batch[|batch| - 1])
    {
      batch := [];
      var last := at;
      while |batch| < BATCH
        invariant |batch| <= BATCH
        invariant last == if batch == [] then at else batch[|batch| - 1]
        invariant InOrder(rows.Keys, at, batch)
        decreases BATCH - |batch|
      {
        var k := FirstBeyond(last);
        if k.None? {
          return;
        }
        batch := batch + [k.value];
        last := k.value;
      }
    }

    method ReplaceWrapping(k: ParamKey, seen: int, envelope: Envelope) returns (written: bool)
      modifies this
      ensures written <==> k in old(rows) && old(rows)[k].envelope.kekVersion == seen
      ensures rows == if written then old(rows)[k := old(rows)[k].(envelope :=
        old(rows)[k].envelope.(kekVersion := envelope.kekVersion, wrappedDek := envelope.wrappedDek))] else old(rows)
    {
      if k !in rows || rows[k].envelope.kekVersion != seen {
        return false;
      }
      var row := rows[k];
      rows := rows[k := row.(envelope := row.envelope.(kekVersion := envelope.kekVersion, wrappedDek := envelope.wrappedDek))];
      return true;
    }

    // With no other writer the walk looks at each row once, in key order, and
    // stops: after the last row, or at the first one that cannot be rewrapped,
    // leaving that one and the later ones as they were.
    method Rewrap(keys: Keys, nonces: Nonces) returns (progress: Progress, error: Option<CipherError>)
      requires forall k :: k in rows ==> k.tenant != []
      modifies this
      ensures error.None? <==> forall k :: k in old(rows) ==> Moved(keys, k, old(rows)[k].envelope, nonces).Success?
      ensures error.None? ==>
        && rows == WalkedTo(keys, old(rows), nonces, {})
        && progress == Progress(|old(rows)|, |Stale(keys, old(rows), {})|)
      ensures error.Some? ==> exists k ::
        && k in old(rows)
        && Moved(keys, k, old(rows)[k].envelope, nonces) == Failure(error.value)
        && (forall j :: j in old(rows) && KeyLess(j, k) ==> Moved(keys, j, old(rows)[j].envelope, nonces).Success?)
        && rows == WalkedTo(keys, old(rows), nonces, NotBefore(old(rows).Keys, k))
    {
      hide RewrapFor, KeyLess, Locate, WalkedTo, Stale, IsNext;
      ghost var before := rows;
      WalkStarts(keys, before, nonces);
      progress, error := Progress(0, 0), None;
      var at := Start;
      while true
        invariant rows.Keys == before.Keys
        invariant rows == WalkedTo(keys, before, nonces, Beyond(before.Keys, at))
        invariant MovesUpTo(keys, before, nonces, Beyond(before.Keys, at))
        invariant progress.examined == |before.Keys| - |Beyond(before.Keys, at)|
        invariant progress.rewrapped == |Stale(keys, before, Beyond(before.Keys, at))|
        decreases Beyond(before.Keys, at)
      {
        ghost var from := at;
        var batch := RewrapBatch(at);
        if |batch| == 0 {
          assert Beyond(before.Keys, at) == {};
          assert MovesUpTo(keys, before, nonces, {});
          return;
        }
        for i := 0 to |batch|
          invariant at == if i == 0 then from else batch[i - 1]
          invariant rows.Keys == before.Keys
          invariant rows == WalkedTo(keys, before, nonces, Beyond(before.Keys, at))
          invariant MovesUpTo(keys, before, nonces, Beyond(before.Keys, at))
          invariant progress.examined == |before.Keys| - |Beyond(before.Keys, at)|
          invariant progress.rewrapped == |Stale(keys, before, Beyond(before.Keys, at))|
          invariant i > 0 ==> Beyond(before.Keys, at) < Beyond(before.Keys, from)
        {
          var k := batch[i];
          NextKeeps(keys, before, nonces, at, k);
          var stored := rows[k].envelope;
          progress := progress.(examined := progress.examined + 1);
          var moved := RewrapFor(keys, k.tenant, stored, Locate(k), nonces(k));
          if moved.Failure? {
            error := Some(moved.error);
            return;
          }
          WalkOneMore(keys, before, nonces, at, k);
          at := k;
          if moved.value.changed {
            var written := ReplaceWrapping(k, stored.kekVersion, moved.value.envelope);
            if written {
              progress := progress.(rewrapped := progress.rewrapped + 1);
            }
          }
        }
      }
    }
  }

  // What the finished walk means: every row at the current version, and opening
  // to what it opened to before.
  lemma WalkedMeaning(keys: Keys, rows: map<ParamKey, Row>, nonces: Nonces, k: ParamKey)
    requires k in rows && Moved(keys, k, rows[k].envelope, nonces).Success?
    ensures var after := WalkedTo(keys, rows, nonces, {});
      && k in after
      && after[k].envelope.kekVersion == keys.kekVersion
      && OpenFor(keys.root, k.tenant, after[k].envelope, Locate(k)) == OpenFor(keys.root, k.tenant, rows[k].envelope, Locate(k))
  {
    RewrapForKeepsMeaning(keys, k.tenant, rows[k].envelope, Locate(k), nonces(k));
  }
}
