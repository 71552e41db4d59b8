/** The versioned secret store: its two tables, and each transaction on them. */
module SecretStore {
  import opened Wrappers
  import opened Encoding
  import opened Limits
  import opened Envelopes
  import Cipher

  const CURRENT_VERSION := 0

  datatype Location = Location(tenant: Text, path: Text)

  datatype RowKey = RowKey(at: Location, version: int)

  datatype Row = Row(envelope: Envelope, created: int, deleted: Option<int>, destroyed: Option<int>)

  datatype Metadata = Metadata(current: int, maxVersions: int, created: int, updated: int)

  datatype Tables = Tables(metadata: map<Location, Metadata>, rows: map<RowKey, Row>)

  datatype Expectation = Any | AtVersion(version: int)

  datatype StoreError =
    | InvalidTenant | InvalidPath | InvalidVersion | Conflict | NotFound | Deleted | Destroyed
    | NotSealed(cause: CipherError) | Constraint

  // ---- where a value lives ----

  function ValidateLocation(l: Location): Result<(), StoreError> {
    if l.tenant == [] || |l.tenant| > MAX_TENANT_LEN then Failure(InvalidTenant)
    else if l.path == [] || |l.path| > MAX_PATH_LEN then Failure(InvalidPath)
    else Success(())
  }

  // The int of the implementation wraps at 64 bits.
  function Wrap64(n: int): Int64 {
    var m := n % 0x1_0000_0000_0000_0000;
    if m < 0x8000_0000_0000_0000 then m else m - 0x1_0000_0000_0000_0000
  }

  function Locate(k: RowKey): AAD {
    AAD(k.at.tenant, k.at.path, Wrap64(k.version))
  }

  // What is sealed for one version of one secret opens there and nowhere else, whatever
  // the tenant, the path or the version.
  lemma OpensOnlyThere(keys: Cipher.Keys, k: RowKey, plaintext: Text, random: Random, other: RowKey)
    requires Cipher.SealFor(keys, k.at.tenant, plaintext, Locate(k), random).Success?
    requires 0 < k.version < 0x8000_0000_0000_0000 && 0 < other.version < 0x8000_0000_0000_0000
    ensures var sealed := Cipher.SealFor(keys, k.at.tenant, plaintext, Locate(k), random).value;
      var result := Cipher.OpenFor(keys.root, other.at.tenant, sealed, Locate(other));
      if other == k then result == Success(plaintext) else result.Failure?
  {
    hide Cipher.SealFor, Cipher.OpenFor;
    Cipher.OpensOnlyForItsTenant(
      keys, k.at.tenant, plaintext, Locate(k), random, keys.root, other.at.tenant, Locate(other));
  }

  // ---- reading ----

  function CurrentVersion(t: Tables, l: Location): int {
    if l in t.metadata then t.metadata[l].current else 0
  }

  predicate Satisfied(e: Expectation, current: int) {
    e.Any? || e.version == current
  }

  predicate Live(t: Tables, k: RowKey) {
    k in t.rows && t.rows[k].destroyed.None?
  }

  // The first statement of a read: which version is meant.
  function Resolve(t: Tables, l: Location, version: int): Result<int, StoreError> {
    var valid := ValidateLocation(l);
    if valid.Failure? then Failure(valid.error)
    else if version < 0 then Failure(InvalidVersion)
    else if version != CURRENT_VERSION then Success(version)
    else if l !in t.metadata then Failure(NotFound)
    else Success(t.metadata[l].current)
  }

  // The second: the row of that version.
  function Select(t: Tables, k: RowKey): Result<Row, StoreError> {
    if k !in t.rows then Failure(NotFound)
    else if t.rows[k].destroyed.Some? then Failure(Destroyed)
    else if t.rows[k].deleted.Some? then Failure(Deleted)
    else Success(t.rows[k])
  }

  function Read(t: Tables, l: Location, version: int): Result<(int, Row), StoreError> {
    var resolved :- Resolve(t, l, version);
    var row :- Select(t, RowKey(l, resolved));
    Success((resolved, row))
  }

  // ---- writing ----

  type Sealer = int -> Result<Envelope, CipherError>

  function Erased(row: Row, now: int): Row {
    row.(destroyed := Some(now), envelope := row.envelope.(wrappedDek := Blank, ciphertext := Blank))
  }

  function Pruned(rows: map<RowKey, Row>, l: Location, newest: int, keep: int, now: int): map<RowKey, Row> {
    map k | k in rows ::
      if k.at == l && k.version <= newest - keep && rows[k].destroyed.None? then Erased(rows[k], now) else rows[k]
  }

  function Inserted(t: Tables, keep: int, l: Location, envelope: Envelope, now: int): Tables {
    var next := CurrentVersion(t, l) + 1;
    var entry := if l in t.metadata then t.metadata[l].(current := next, updated := now)
                 else Metadata(next, keep, now, now);
    var rows := t.rows[RowKey(l, next) := Row(envelope, now, None, None)];
    Tables(t.metadata[l := entry], if next - keep < 1 then rows else Pruned(rows, l, next, keep, now))
  }

  function AfterPut(t: Tables, keep: int, l: Location, wanted: Expectation, now: int, seal: Sealer): (Tables, Result<int, StoreError>) {
    var valid := ValidateLocation(l);
    var next := CurrentVersion(t, l) + 1;
    if valid.Failure? then (t, Failure(valid.error))
    else if !Satisfied(wanted, next - 1) then (t, Failure(Conflict))
    else
      var sealed := seal(next);
      if sealed.Failure? then (t, Failure(NotSealed(sealed.error)))
      else if RowKey(l, next) in t.rows then (t, Failure(Constraint))
      else (Inserted(t, keep, l, sealed.value, now), Success(next))
  }

  // ---- marking ----

  datatype Action = Delete | Undelete | Destroy

  function Refusal(rows: map<RowKey, Row>, k: RowKey, action: Action): Option<StoreError> {
    if k !in rows then Some(NotFound)
    else if rows[k].destroyed.Some? && !action.Destroy? then Some(Destroyed)
    else None
  }

  function Marked(row: Row, action: Action, now: int): Row {
    match action
    case Delete => if row.deleted.Some? then row else row.(deleted := Some(now))
    case Undelete => row.(deleted := None)
    case Destroy => if row.destroyed.Some? then row else Erased(row, now)
  }

  // The versions a call names: those listed, or the current one.
  function Named(t: Tables, l: Location, versions: seq<int>): Result<seq<int>, StoreError> {
    if versions != [] then Success(versions)
    else if l in t.metadata then Success([t.metadata[l].current])
    else Failure(NotFound)
  }

  predicate Markable(t: Tables, l: Location, versions: seq<int>, action: Action) {
    forall i :: 0 <= i < |versions| ==> Refusal(t.rows, RowKey(l, versions[i]), action).None?
  }

  // Every named version is marked at once.
  function MarkedTogether(t: Tables, l: Location, versions: seq<int>, action: Action, now: int): Tables {
    t.(rows := map k | k in t.rows ::
      if k.at == l && k.version in versions then Marked(t.rows[k], action, now) else t.rows[k])
  }

  function AfterMark(t: Tables, l: Location, versions: seq<int>, action: Action, now: int): (Tables, Result<(), StoreError>) {
    var valid := ValidateLocation(l);
    if valid.Failure? then (t, Failure(valid.error))
    else if exists i :: 0 <= i < |versions| && versions[i] < 1 then (t, Failure(InvalidVersion))
    else
      var named := Named(t, l, versions);
      if named.Failure? then (t, Failure(named.error))
      else if !Markable(t, l, named.value, action) then (t, Failure(FirstRefusal(t, l, named.value, action)))
      else (MarkedTogether(t, l, named.value, action, now), Success(()))
  }

  function FirstRefusal(t: Tables, l: Location, versions: seq<int>, action: Action): StoreError {
    if versions == [] then NotFound
    else
      var refused := Refusal(t.rows, RowKey(l, versions[0]), action);
      if refused.Some? then refused.value else FirstRefusal(t, l, versions[1..], action)
  }

  // ---- rewrapping one row ----

  // The guarded update of a rewrap: only a live row still at the key version
  // the walk saw takes the new wrapping, and its ciphertext is not touched.
  function AfterReplace(t: Tables, k: RowKey, seen: int, envelope: Envelope): Tables {
    if Live(t, k) && t.rows[k].envelope.kekVersion == seen then
      var row := t.rows[k];
      var wrapped := row.envelope.(kekVersion := envelope.kekVersion, wrappedDek := envelope.wrappedDek);
      t.(rows := t.rows[k := row.(envelope := wrapped)])
    else t
  }

  // ---- the store ----

  class Store {
    var metadata: map<Location, Metadata>
    var rows: map<RowKey, Row>
    const maxVersions: Positive

    ghost function View(): Tables
      reads this
    {
      Tables(metadata, rows)
    }

    constructor (keep: Positive)
      ensures View() == Tables(map[], map[]) && maxVersions == keep
    {
      metadata, rows, maxVersions := map[], map[], keep;
    }

    method Put(l: Location, wanted: Expectation, now: int, seal: Sealer) returns (r: Result<int, StoreError>)
      modifies this
      ensures (View(), r) == AfterPut(old(View()), maxVersions, l, wanted, now, seal)
      // A write goes ahead whatever is stored, or only on the version it expects; one
      // that is refused changes nothing, and one that succeeds is the next version.
      ensures r.Failure? ==> metadata == old(metadata) && rows == old(rows)
      ensures var current := if l in old(metadata) then old(metadata)[l].current else 0;
        && (r == Failure(Conflict) <==>
             0 < |l.tenant| <= MAX_TENANT_LEN && 0 < |l.path| <= MAX_PATH_LEN && wanted.AtVersion? && wanted.version != current)
        && (r.Success? <==>
             && 0 < |l.tenant| <= MAX_TENANT_LEN && 0 < |l.path| <= MAX_PATH_LEN
             && (wanted.AtVersion? ==> wanted.version == current)
             && seal(current + 1).Success? && RowKey(l, current + 1) !in old(rows))
        && (r.Success? ==>
             && r.value == current + 1
             && metadata.Keys == old(metadata).Keys + {l} && metadata[l].current == current + 1
             && (forall m :: m in metadata && m != l ==> metadata[m] == old(metadata)[m])
             && rows.Keys == old(rows).Keys + {RowKey(l, current + 1)}
             && rows[RowKey(l, current + 1)] == Row(seal(current + 1).value, now, None, None))
      ensures (r.Success? ==>
        && metadata[l] == (if l in old(metadata) then old(metadata)[l].(current := r.value, updated := now)
                           else Metadata(r.value, maxVersions, now, now))
        && (forall k :: k in old(rows) && (k.at != l || k.version > r.value - maxVersions) ==> rows[k] == old(rows)[k])
        && (forall k :: k in old(rows) && k.at == l && 1 <= k.version <= r.value - maxVersions ==>
             rows[k].destroyed.Some? && (old(rows)[k].destroyed.None? ==>
               rows[k].envelope.wrappedDek.Blank? && rows[k].envelope.ciphertext.Blank?)))
    {
      hide Pruned;
      var valid := ValidateLocation(l);
      if valid.Failure? {
        return Failure(valid.error);
      }
      var known := l in metadata;
      var current := if known then metadata[l].current else 0;
      if !Satisfied(wanted, current) {
        return Failure(Conflict);
      }
      var next := current + 1;
      var sealed := seal(next);
      if sealed.Failure? {
        return Failure(NotSealed(sealed.error));
      }
      if RowKey(l, next) in rows {
        return Failure(Constraint);
      }
      if known {
        metadata := metadata[l := metadata[l].(current := next, updated := now)];
      } else {
        metadata := metadata[l := Metadata(next, maxVersions, now, now)];
      }
      rows := rows[RowKey(l, next) := Row(sealed.value, now, None, None)];
      PruneOldVersions(l, next, now);
      return Success(next);
    }

    method PruneOldVersions(l: Location, newest: int, now: int)
      modifies this`rows
      ensures rows.Keys == old(rows).Keys
      // What falls out of the newest to be kept is left destroyed and empty.
      ensures forall k :: k in rows && k.at == l && 1 <= k.version <= newest - maxVersions ==>
        rows[k].destroyed.Some? && (old(rows)[k].destroyed.None? ==>
          rows[k] == Row(Envelope(old(rows)[k].envelope.kekVersion, Blank, Blank),
                         old(rows)[k].created, old(rows)[k].deleted, Some(now)))
      // Destroyed rows, newer versions and other paths are untouched.
      ensures forall k :: k in rows && (k.at != l || k.version > newest - maxVersions || old(rows)[k].destroyed.Some?) ==>
        rows[k] == old(rows)[k]
      ensures rows == if newest - maxVersions < 1 then old(rows) else Pruned(old(rows), l, newest, maxVersions, now)
    {
      if newest - maxVersions < 1 {
        return;
      }
      rows := Pruned(rows, l, newest, maxVersions, now);
    }

    method Get(l: Location, version: int) returns (r: Result<(int, Row), StoreError>)
      ensures r == Read(View(), l, version)
      // The version asked for, or the current one; never a deleted or destroyed row.
      ensures (r.Success? <==>
        && 0 < |l.tenant| <= MAX_TENANT_LEN && 0 < |l.path| <= MAX_PATH_LEN && version >= 0
        && (version == 0 ==> l in metadata)
        && var k := RowKey(l, if version == 0 then metadata[l].current else version);
           k in rows && rows[k].deleted.None? && rows[k].destroyed.None?)
      ensures (r.Success? ==>
        var v := if version == 0 then metadata[l].current else version;
        r.value == (v, rows[RowKey(l, v)]))
      ensures (r.Failure? ==>
        r.error ==
          if !(0 < |l.tenant| <= 64) then InvalidTenant else if !(0 < |l.path| <= 512) then InvalidPath
          else if version < 0 then InvalidVersion
          else if version == 0 && l !in metadata then NotFound
          else
            var k := RowKey(l, if version == 0 then metadata[l].current else version);
            if k !in rows then NotFound else if rows[k].destroyed.Some? then Destroyed else Deleted)
    {
      var valid := ValidateLocation(l);
      if valid.Failure? {
        return Failure(valid.error);
      }
      if version < 0 {
        return Failure(InvalidVersion);
      }
      var chosen := version;
      if version == CURRENT_VERSION {
        if l !in metadata {
          return Failure(NotFound);
        }
        chosen := metadata[l].current;
      }
      if RowKey(l, chosen) !in rows {
        return Failure(NotFound);
      }
      var row := rows[RowKey(l, chosen)];
      if row.destroyed.Some? {
        return Failure(Destroyed);
      }
      if row.deleted.Some? {
        return Failure(Deleted);
      }
      return Success((chosen, row));
    }

    method Mark(l: Location, versions: seq<int>, action: Action, now: int) returns (r: Result<(), StoreError>)
      modifies this
      ensures (View(), r) == AfterMark(old(View()), l, versions, action, now)
      ensures metadata == old(metadata) && rows.Keys == old(rows).Keys
      ensures r.Failure? ==> rows == old(rows)
      ensures (r.Success? <==>
        && 0 < |l.tenant| <= MAX_TENANT_LEN && 0 < |l.path| <= MAX_PATH_LEN
        && (forall i :: 0 <= i < |versions| ==> versions[i] >= 1)
        && (versions == [] ==> l in old(metadata))
        && var named := if versions == [] then [old(metadata)[l].current] else versions;
           forall i :: 0 <= i < |named| ==>
             RowKey(l, named[i]) in old(rows)
             && (old(rows)[RowKey(l, named[i])].destroyed.Some? ==> action.Destroy?))
      // Deleting and destroying keep their first time; destroying empties the row.
      ensures (r.Success? ==>
        var named := if versions == [] then [metadata[l].current] else versions;
        forall k :: k in rows ==>
          var was := old(rows)[k];
          if k.at != l || k.version !in named then rows[k] == was
          else if action.Undelete? then rows[k] == was.(deleted := None)
          else if action.Delete? then rows[k] == was.(deleted := Some(if was.deleted.Some? then was.deleted.value else now))
          else if was.destroyed.Some? then rows[k] == was
          else rows[k] == Row(Envelope(was.envelope.kekVersion, Blank, Blank), was.created, was.deleted, Some(now)))
    {
      var valid := ValidateLocation(l);
      if valid.Failure? {
        return Failure(valid.error);
      }
      for i := 0 to |versions|
        invariant forall j :: 0 <= j < i ==> versions[j] >= 1
      {
        if versions[i] < 1 {
          return Failure(InvalidVersion);
        }
      }
      var named := versions;
      if |versions| == 0 {
        if l !in metadata {
          return Failure(NotFound);
        }
        named := [metadata[l].current];
      }
      var marked := MarkEach(Tables(metadata, rows), l, named, action, now);
      if marked.Failure? {
        return Failure(marked.error);
      }
      rows := marked.value.rows;
      return Success(());
    }

    method ReplaceWrapping(k: RowKey, seen: int, envelope: Envelope) returns (written: bool)
      modifies this`rows
      ensures View() == AfterReplace(old(View()), k, seen, envelope)
      ensures written <==> k in old(rows) && old(rows)[k].destroyed.None? && old(rows)[k].envelope.kekVersion == seen
      ensures !written ==> rows == old(rows)
      ensures (written ==>
        var was := old(rows)[k];
        rows == old(rows)[k :=
          was.(envelope := Envelope(envelope.kekVersion, envelope.wrappedDek, was.envelope.ciphertext))])
    {
      if k !in rows || rows[k].destroyed.Some? || rows[k].envelope.kekVersion != seen {
        return false;
      }
      var row := rows[k];
      rows := rows[k := row.(envelope := row.envelope.(kekVersion := envelope.kekVersion, wrappedDek := envelope.wrappedDek))];
      return true;
    }
  }

  // The body of the transaction in mark: one version after another, and the
  // first refusal abandons what the earlier ones wrote.
  method MarkEach(t: Tables, l: Location, versions: seq<int>, action: Action, now: int) returns (r: Result<Tables, StoreError>)
    ensures r == if Markable(t, l, versions, action) then Success(MarkedTogether(t, l, versions, action, now))
                 else Failure(FirstRefusal(t, l, versions, action))
  {
    var working := t.rows;
    for i := 0 to |versions|
      invariant Markable(t, l, versions[..i], action)
      invariant working == MarkedTogether(t, l, versions[..i], action, now).rows
    {
      var k := RowKey(l, versions[i]);
      MarkOneMore(t, l, versions[..i], versions[i], action, now);
      assert versions[..i + 1] == versions[..i] + [versions[i]];
      var refused := Refusal(working, k, action);
      if refused.Some? {
        FirstRefusalAt(t, l, versions, i, action);
        return Failure(refused.value);
      }
      working := working[k := Marked(working[k], action, now)];
    }
    assert versions[..|versions|] == versions;
    return Success(t.(rows := working));
  }

  // Marking in turn and marking at once agree, repeats included.
  lemma MarkOneMore(t: Tables, l: Location, done: seq<int>, version: int, action: Action, now: int)
    requires Markable(t, l, done, action)
    ensures var working := MarkedTogether(t, l, done, action, now).rows;
      var k := RowKey(l, version);
      && Refusal(working, k, action) == Refusal(t.rows, k, action)
      && (Refusal(t.rows, k, action).None? ==>
        && Markable(t, l, done + [version], action)
        && working[k := Marked(working[k], action, now)] == MarkedTogether(t, l, done + [version], action, now).rows)
  {
    var working := MarkedTogether(t, l, done, action, now).rows;
    var k := RowKey(l, version);
    if k in t.rows && version in done {
      var i :| 0 <= i < |done| && done[i] == version;
      assert Refusal(t.rows, RowKey(l, done[i]), action).None?;
    }
    if Refusal(t.rows, k, action).None? {
      var more := done + [version];
      forall i | 0 <= i < |more| ensures Refusal(t.rows, RowKey(l, more[i]), action).None? {
        assert i < |done| ==> more[i] == done[i];
      }
    }
  }

  lemma {:induction false} FirstRefusalAt(t: Tables, l: Location, versions: seq<int>, i: nat, action: Action)
    requires i < |versions| && Markable(t, l, versions[..i], action)
    requires Refusal(t.rows, RowKey(l, versions[i]), action).Some?
    ensures !Markable(t, l, versions, action)
    ensures FirstRefusal(t, l, versions, action) == Refusal(t.rows, RowKey(l, versions[i]), action).value
    decreases |versions|
  {
    if i > 0 {
      assert versions[..i][0] == versions[0];
      assert versions[1..][..i - 1] == versions[..i][1..];
      FirstRefusalAt(t, l, versions[1..], i - 1, action);
    }
  }

  // What a read answers after each marking: a deleted version is not found any more
  // until it is undeleted, and then it is what it was; a destroyed one never again.
  lemma MarksSeen(t: Tables, l: Location, version: int, now: int, later: int)
    requires version >= 1 && ValidateLocation(l).Success? && RowKey(l, version) in t.rows
    requires t.rows[RowKey(l, version)].destroyed.None?
    ensures var k := RowKey(l, version);
      var row := t.rows[k];
      var deleted := AfterMark(t, l, [version], Delete, now).0;
      var undeleted := AfterMark(deleted, l, [version], Undelete, later).0;
      var destroyed := AfterMark(t, l, [version], Destroy, now).0;
      && Read(deleted, l, version) == Failure(Deleted)
      && Read(undeleted, l, version) == Success((version, row.(deleted := None)))
      && Read(destroyed, l, version) == Failure(Destroyed)
      && AfterMark(destroyed, l, [version], Undelete, later) == (destroyed, Failure(Destroyed))
  {
    assert version in [version];
    var deleted := AfterMark(t, l, [version], Delete, now).0;
    assert Markable(t, l, [version], Delete) && Markable(t, l, [version], Destroy);
    assert Markable(deleted, l, [version], Undelete);
    var destroyed := AfterMark(t, l, [version], Destroy, now).0;
    assert Refusal(destroyed.rows, RowKey(l, [version][0]), Undelete).Some?;
  }
}
