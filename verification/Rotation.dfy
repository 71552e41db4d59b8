/**
 Key rotation over the secret store, step by step: writers, the seal, and one
 rotation whose rewrap walk holds a stale batch, interleaved in any order.

 The database has one connection, so a transaction is one holder of it and every
 bare statement needs it free. The seal manager's mutex is held by Rotate across
 its update and is needed, if only for reading, by whoever seals or rewraps.
 */
module Rotation {
  import opened Wrappers
  import opened Encoding
  import opened Envelopes
  import opened Cipher
  import opened SecretStore
  import opened Limits
  import opened Ordering
  import History = SecretHistory
  import SealManager

  const BATCH := 100

  // keep is the store's maxVersions; master is the root key of this store.
  datatype Setup = Setup(keep: int, master: Material)

  datatype Connection =
    | Idle
    // A Put transaction that has read the current version and not yet sealed.
    | Reading(l: Location, plaintext: Text)
    | Sealed(l: Location, plaintext: Text, envelope: Envelope)

  datatype Record = Record(key: RowKey, envelope: Envelope)

  // The one rotation that the busy flag lets in.
  datatype Rotor =
    | Resting
    | Claimed
    | Locked
    | Updated(to: int)
    | Walking(to: int, at: RowKey, pending: seq<Record>, computed: Option<Envelope>)
    | Succeeded(to: int)

  // put is what was written at each row, kept for the claims only.
  datatype World = World(
    tables: Tables, storedKek: int,
    connection: Connection,
    root: Option<Material>, kekVersion: int,
    rotor: Rotor,
    put: map<RowKey, Text>)

  predicate MutexFree(w: World) { !w.rotor.Locked? && !w.rotor.Updated? }

  // ---- the batch query ----

  predicate KeyLess(a: RowKey, b: RowKey) {
    || Less(a.at.tenant, b.at.tenant)
    || (a.at.tenant == b.at.tenant && Less(a.at.path, b.at.path))
    || (a.at == b.at && a.version < b.version)
  }

  const Start := RowKey(Location([], []), 0)

  predicate Covers(batch: seq<Record>, k: RowKey) {
    exists i :: 0 <= i < |batch| && batch[i].key == k
  }

  // The first rows beyond the cursor that are not destroyed, at most BATCH.
  ghost predicate IsBatch(t: Tables, at: RowKey, batch: seq<Record>) {
    && |batch| <= BATCH
    && (forall i :: 0 <= i < |batch| ==>
      && Live(t, batch[i].key) && KeyLess(at, batch[i].key) && batch[i].envelope == t.rows[batch[i].key].envelope)
    && (forall i, j :: 0 <= i < j < |batch| ==> KeyLess(batch[i].key, batch[j].key))
    && (forall k :: Live(t, k) && KeyLess(at, k) ==>
      Covers(batch, k) || (|batch| == BATCH && KeyLess(batch[|batch| - 1].key, k)))
  }

  // ---- steps ----

  datatype Step =
    | PutBegin(l: Location, wanted: Expectation, plaintext: Text)
    | PutSeal(random: Random)
    | PutCommit(now: int)
    | PutRollback
    | MarkVersions(l: Location, versions: seq<int>, action: Action, now: int)
    | SealStore
    | UnsealStore
    | RotateClaim
    | RotateLock
    | RotateUpdate
    | RotateUnlock
    | WalkRead(batch: seq<Record>)
    | WalkRewrap(nonce: nat)
    | WalkReplace
    | RotateRelease

  // A step that cannot happen now leaves the world as it is.
  ghost function Next(s: Setup, w: World, step: Step): World {
    match step
    case PutBegin(l, wanted, plaintext) =>
      if w.connection.Idle? && ValidateLocation(l).Success? && Satisfied(wanted, CurrentVersion(w.tables, l))
      then w.(connection := Reading(l, plaintext)) else w
    case PutSeal(random) =>
      if w.connection.Reading? && MutexFree(w) then
        var c := w.connection;
        var k := RowKey(c.l, CurrentVersion(w.tables, c.l) + 1);
        var sealed := SealFor(Keys(w.root, w.kekVersion), c.l.tenant, c.plaintext, Locate(k), random);
        w.(connection := if sealed.Success? then Sealed(c.l, c.plaintext, sealed.value) else Idle)
      else w
    case PutCommit(now) =>
      if w.connection.Sealed? then
        var c := w.connection;
        var k := RowKey(c.l, CurrentVersion(w.tables, c.l) + 1);
        w.(connection := Idle, tables := Inserted(w.tables, s.keep, c.l, c.envelope, now), put := w.put[k := c.plaintext])
      else w
    case PutRollback => w.(connection := Idle)
    case MarkVersions(l, versions, action, now) =>
      if w.connection.Idle? then w.(tables := AfterMark(w.tables, l, versions, action, now).0) else w
    case SealStore =>
      if MutexFree(w) then w.(root := None, kekVersion := 0) else w
    case UnsealStore =>
      if MutexFree(w) && w.connection.Idle? && w.root.None?
      then w.(root := Some(s.master), kekVersion := w.storedKek) else w
    case RotateClaim =>
      if w.rotor.Resting? then w.(rotor := Claimed) else w
    case RotateLock =>
      if w.rotor.Claimed? then w.(rotor := if w.root.None? then Resting else Locked) else w
    case RotateUpdate =>
      if w.rotor.Locked? && w.connection.Idle?
      then w.(storedKek := w.storedKek + 1, rotor := Updated(w.storedKek + 1)) else w
    case RotateUnlock =>
      if w.rotor.Updated? then w.(kekVersion := w.rotor.to, rotor := Walking(w.rotor.to, Start, [], None)) else w
    case WalkRead(batch) =>
      if w.rotor.Walking? && w.rotor.pending == [] && w.connection.Idle? && IsBatch(w.tables, w.rotor.at, batch)
      then w.(rotor := if batch == [] then Succeeded(w.rotor.to) else w.rotor.(pending := batch)) else w
    case WalkRewrap(nonce) =>
      if w.rotor.Walking? && w.rotor.pending != [] && w.rotor.computed.None? && MutexFree(w) then
        var r := w.rotor.pending[0];
        var moved := RewrapFor(Keys(w.root, w.kekVersion), r.key.at.tenant, r.envelope, Locate(r.key), nonce);
        if moved.Failure? then w.(rotor := Resting)
        else if moved.value.changed then w.(rotor := w.rotor.(at := r.key, computed := Some(moved.value.envelope)))
        else w.(rotor := w.rotor.(at := r.key, pending := w.rotor.pending[1..]))
      else w
    case WalkReplace =>
      if w.rotor.Walking? && w.rotor.pending != [] && w.rotor.computed.Some? && w.connection.Idle? then
        var r := w.rotor.pending[0];
        w.(tables := AfterReplace(w.tables, r.key, r.envelope.kekVersion, w.rotor.computed.value),
           rotor := w.rotor.(pending := w.rotor.pending[1..], computed := None))
      else w
    // Success, an error or a cancelled context: the flag is dropped, and with
    // it whatever the walk still held. Not while the mutex is held.
    case RotateRelease =>
      if MutexFree(w) then w.(rotor := Resting) else w
  }

  // ---- what every reachable world satisfies ----

  predicate OpensTo(s: Setup, k: RowKey, envelope: Envelope, plaintext: Text) {
    OpenFor(Some(s.master), k.at.tenant, envelope, Locate(k)) == Success(plaintext)
  }

  predicate RowSound(s: Setup, w: World, k: RowKey)
    requires k in w.tables.rows
  {
    && k.at.tenant != []
    && k in w.put
    && (w.tables.rows[k].destroyed.None? ==>
      && OpensTo(s, k, w.tables.rows[k].envelope, w.put[k])
      && w.tables.rows[k].envelope.kekVersion <= w.storedKek)
  }

  predicate KeysSound(s: Setup, w: World) {
    && w.storedKek >= INITIAL_KEK_VERSION
    && (w.root.Some? ==>
      && w.root.value == s.master
      && w.kekVersion == if w.rotor.Updated? then w.storedKek - 1 else w.storedKek)
    && (w.rotor.Locked? || w.rotor.Updated? ==> w.root.Some?)
    && ((w.rotor.Updated? || w.rotor.Walking?) ==> w.rotor.to == w.storedKek)
    && (w.rotor.Succeeded? ==> w.rotor.to == w.storedKek)
  }

  // A sealed Put is at the newest version as soon as a rotation has written it.
  predicate ConnectionSound(s: Setup, w: World) {
    && (!w.connection.Idle? ==> w.connection.l.tenant != [])
    && (w.connection.Sealed? ==>
      && OpensTo(s, RowKey(w.connection.l, CurrentVersion(w.tables, w.connection.l) + 1), w.connection.envelope, w.connection.plaintext)
      && w.connection.envelope.kekVersion == w.storedKek)
  }

  // A live row that the rotation still has to move.
  predicate Old(w: World, to: int, k: RowKey) {
    Live(w.tables, k) && w.tables.rows[k].envelope.kekVersion < to
  }

  function Horizon(r: Rotor): RowKey
    requires r.Walking?
  {
    if r.pending == [] then r.at else r.pending[|r.pending| - 1].key
  }

  predicate RecordSound(s: Setup, w: World, to: int, r: Record) {
    && r.key in w.tables.rows
    && r.key in w.put
    && OpensTo(s, r.key, r.envelope, w.put[r.key])
    && r.envelope.kekVersion <= to
    && (Live(w.tables, r.key) ==> w.tables.rows[r.key].envelope.ciphertext == r.envelope.ciphertext)
    && (Old(w, to, r.key) ==> w.tables.rows[r.key].envelope.kekVersion == r.envelope.kekVersion)
  }

  ghost predicate WalkSound(s: Setup, w: World) {
    && (w.rotor.Walking? ==>
      && (forall k :: Old(w, w.rotor.to, k) ==> Covers(w.rotor.pending, k) || KeyLess(Horizon(w.rotor), k))
      && (forall i :: 0 <= i < |w.rotor.pending| ==> RecordSound(s, w, w.rotor.to, w.rotor.pending[i]))
      && (w.rotor.computed.Some? ==>
        && w.rotor.pending != []
        && w.rotor.at == w.rotor.pending[0].key
        && OpensTo(s, w.rotor.at, w.rotor.computed.value, w.put[w.rotor.at])
        && w.rotor.computed.value.kekVersion == w.rotor.to
        && w.rotor.computed.value.ciphertext == w.rotor.pending[0].envelope.ciphertext))
    && (w.rotor.Succeeded? ==> forall k :: !Old(w, w.rotor.to, k))
  }

  ghost predicate Inv(s: Setup, w: World) {
    && History.Inv(w.tables, s.keep)
    && KeysSound(s, w)
    && ConnectionSound(s, w)
    && (forall k :: k in w.tables.rows ==> RowSound(s, w, k))
    && w.put.Keys == w.tables.rows.Keys
    && WalkSound(s, w)
  }

  // ---- every step keeps it ----

  // What each table change may do, as far as rotation cares.
  ghost predicate OnlyAgesRows(t: Tables, t': Tables) {
    && t'.rows.Keys == t.rows.Keys
    && (forall k :: Live(t', k) ==> Live(t, k) && t'.rows[k].envelope == t.rows[k].envelope)
    && (forall l :: CurrentVersion(t', l) == CurrentVersion(t, l))
  }

  lemma MarkOnlyAges(t: Tables, l: Location, versions: seq<int>, action: Action, now: int)
    ensures OnlyAgesRows(t, AfterMark(t, l, versions, action, now).0)
  {
    var t' := AfterMark(t, l, versions, action, now).0;
    forall k | Live(t', k) ensures Live(t, k) && t'.rows[k].envelope == t.rows[k].envelope {}
  }

  lemma AgingKeepsInv(s: Setup, w: World, t: Tables)
    requires Inv(s, w) && OnlyAgesRows(w.tables, t) && History.Inv(t, s.keep) && w.connection.Idle?
    ensures Inv(s, w.(tables := t))
  {
    hide OpensTo, History.Inv, KeyLess;
    var w' := w.(tables := t);
    forall k | k in t.rows ensures RowSound(s, w', k) {
      assert RowSound(s, w, k);
      assert Live(t, k) <==> t.rows[k].destroyed.None?;
    }
    if w.rotor.Walking? {
      forall k | Old(w', w.rotor.to, k) ensures Covers(w.rotor.pending, k) || KeyLess(Horizon(w.rotor), k) {
        assert Old(w, w.rotor.to, k);
      }
      forall i | 0 <= i < |w.rotor.pending| ensures RecordSound(s, w', w.rotor.to, w.rotor.pending[i]) {
        assert RecordSound(s, w, w.rotor.to, w.rotor.pending[i]);
        var k := w.rotor.pending[i].key;
        assert Live(t, k) ==> Live(w.tables, k);
        assert Old(w', w.rotor.to, k) ==> Old(w, w.rotor.to, k);
      }
    }
    if w.rotor.Succeeded? {
      forall k ensures !Old(w', w.rotor.to, k) {
        assert !Old(w, w.rotor.to, k);
      }
    }
  }

  lemma MarkKeepsInv(s: Setup, w: World, l: Location, versions: seq<int>, action: Action, now: int)
    requires Inv(s, w)
    ensures Inv(s, Next(s, w, MarkVersions(l, versions, action, now)))
  {
    hide AfterMark, OnlyAgesRows, History.Inv, KeysSound, ConnectionSound, WalkSound;
    MarkOnlyAges(w.tables, l, versions, action, now);
    History.ApplyKeepsInv(w.tables, s.keep, History.Mark(l, versions, action, now));
    if w.connection.Idle? {
      AgingKeepsInv(s, w, AfterMark(w.tables, l, versions, action, now).0);
    }
  }

  lemma SealKeepsInv(s: Setup, w: World, random: Random)
    requires Inv(s, w)
    ensures Inv(s, Next(s, w, PutSeal(random)))
  {
    hide SealFor, OpenFor, History.Inv, RowSound, WalkSound, Locate;
    if w.connection.Reading? && MutexFree(w) {
      var c := w.connection;
      var k := RowKey(c.l, CurrentVersion(w.tables, c.l) + 1);
      var keys := Keys(w.root, w.kekVersion);
      var sealed := SealFor(keys, c.l.tenant, c.plaintext, Locate(k), random);
      if sealed.Success? {
        OpensOnlyForItsTenant(keys, c.l.tenant, c.plaintext, Locate(k), random, keys.root, c.l.tenant, Locate(k));
        SealVersion(keys, c.l.tenant, c.plaintext, Locate(k), random);
      }
      SameRest(s, w, Next(s, w, PutSeal(random)));
    }
  }

  // Rows and the walk do not depend on the connection or on the keys in memory.
  lemma SameRest(s: Setup, w: World, w': World)
    requires w'.tables == w.tables && w'.storedKek == w.storedKek && w'.put == w.put && w'.rotor == w.rotor
    ensures forall k :: k in w.tables.rows ==> RowSound(s, w', k) == RowSound(s, w, k)
    ensures WalkSound(s, w') == WalkSound(s, w)
  {
    hide OpensTo, KeyLess, Covers;
    forall to, k ensures Old(w', to, k) == Old(w, to, k) {}
    forall to, r ensures RecordSound(s, w', to, r) == RecordSound(s, w, to, r) {}
  }

  // A committed Put adds one live row at the newest version and ages the rest.
  lemma InsertedAges(s: Setup, w: World, l: Location, envelope: Envelope, now: int)
    requires History.Inv(w.tables, s.keep)
    ensures var t := w.tables;
      var t' := Inserted(t, s.keep, l, envelope, now);
      var k := RowKey(l, CurrentVersion(t, l) + 1);
      && k !in t.rows && t'.rows.Keys == t.rows.Keys + {k}
      && t'.rows[k].envelope == envelope && Live(t', k)
      && (forall k' :: k' != k && Live(t', k') ==> Live(t, k') && t'.rows[k'].envelope == t.rows[k'].envelope)
  {
    hide Inserted, History.Inv;
    var t := w.tables;
    var t' := Inserted(t, s.keep, l, envelope, now);
    var k := RowKey(l, CurrentVersion(t, l) + 1);
    forall k' ensures k' in t'.rows <==> k' in t.rows || k' == k {
      History.InsertedRow(t, s.keep, l, envelope, now, k');
    }
    History.InsertedRow(t, s.keep, l, envelope, now, k);
    forall k' | k' != k && Live(t', k') ensures Live(t, k') && t'.rows[k'].envelope == t.rows[k'].envelope {
      History.InsertedRow(t, s.keep, l, envelope, now, k');
    }
  }

  lemma CommitKeepsInv(s: Setup, w: World, now: int)
    requires Inv(s, w) && w.connection.Sealed?
    ensures Inv(s, Next(s, w, PutCommit(now)))
  {
    hide OpensTo, History.Inv, Inserted, KeyLess;
    var c := w.connection;
    var k := RowKey(c.l, CurrentVersion(w.tables, c.l) + 1);
    var w' := Next(s, w, PutCommit(now));
    InsertedAges(s, w, c.l, c.envelope, now);
    History.InsertedKeepsInv(w.tables, s.keep, c.l, c.envelope, now);
    forall k' | k' in w'.tables.rows ensures RowSound(s, w', k') {
      if k' != k {
        assert RowSound(s, w, k');
        assert Live(w'.tables, k') <==> w'.tables.rows[k'].destroyed.None?;
      }
    }
    forall to, k' | to <= w.storedKek && Old(w', to, k') ensures k' != k && Old(w, to, k') {}
    if w.rotor.Walking? {
      forall k' | Old(w', w.rotor.to, k') ensures Covers(w.rotor.pending, k') || KeyLess(Horizon(w.rotor), k') {
        assert Old(w, w.rotor.to, k');
      }
      forall i | 0 <= i < |w.rotor.pending| ensures RecordSound(s, w', w.rotor.to, w.rotor.pending[i]) {
        assert RecordSound(s, w, w.rotor.to, w.rotor.pending[i]);
        assert w.rotor.pending[i].key != k;
      }
      assert w.rotor.computed.Some? ==> RecordSound(s, w, w.rotor.to, w.rotor.pending[0]) && w.rotor.at != k;
    }
  }

  lemma UpdateKeepsInv(s: Setup, w: World)
    requires Inv(s, w)
    ensures Inv(s, Next(s, w, RotateUpdate))
  {
    hide OpensTo, History.Inv;
    var w' := Next(s, w, RotateUpdate);
    forall k | k in w.tables.rows ensures RowSound(s, w', k) {
      assert RowSound(s, w, k);
    }
  }

  // The empty cursor comes before every row.
  lemma StartsBefore(k: RowKey)
    requires k.at.tenant != []
    ensures KeyLess(Start, k)
  {}

  lemma UnlockKeepsInv(s: Setup, w: World)
    requires Inv(s, w)
    ensures Inv(s, Next(s, w, RotateUnlock))
  {
    hide OpensTo, History.Inv, KeyLess;
    var w' := Next(s, w, RotateUnlock);
    forall k | k in w.tables.rows ensures RowSound(s, w', k) && KeyLess(Start, k) {
      assert RowSound(s, w, k);
      StartsBefore(k);
    }
  }

  lemma ReadKeepsInv(s: Setup, w: World, batch: seq<Record>)
    requires Inv(s, w) && w.rotor.Walking? && w.rotor.pending == []
    requires IsBatch(w.tables, w.rotor.at, batch)
    ensures Inv(s, w.(rotor := if batch == [] then Succeeded(w.rotor.to) else w.rotor.(pending := batch)))
  {
    hide OpensTo, History.Inv, KeyLess;
    var w' := w.(rotor := if batch == [] then Succeeded(w.rotor.to) else w.rotor.(pending := batch));
    forall k | k in w.tables.rows ensures RowSound(s, w', k) {
      assert RowSound(s, w, k);
    }
    forall i | 0 <= i < |batch| ensures RecordSound(s, w', w.rotor.to, batch[i]) {
      assert RowSound(s, w, batch[i].key);
    }
    forall k | Old(w', w.rotor.to, k)
      ensures batch != [] && (Covers(batch, k) || KeyLess(batch[|batch| - 1].key, k))
    {
      assert Old(w, w.rotor.to, k);
      assert KeyLess(w.rotor.at, k);
    }
  }

  // Popping the first record keeps the walk sound once its row is not old.
  lemma PopKeepsWalk(s: Setup, w: World, w': World)
    requires w.rotor.Walking? && w.rotor.pending != []
    requires forall k :: Old(w, w.rotor.to, k) ==> Covers(w.rotor.pending, k) || KeyLess(Horizon(w.rotor), k)
    requires w'.rotor == Walking(w.rotor.to, w.rotor.pending[0].key, w.rotor.pending[1..], None)
    requires forall k :: Old(w', w.rotor.to, k) ==> Old(w, w.rotor.to, k)
    requires !Old(w', w.rotor.to, w.rotor.pending[0].key)
    requires forall i :: 0 < i < |w.rotor.pending| ==> RecordSound(s, w', w.rotor.to, w.rotor.pending[i])
    ensures WalkSound(s, w')
  {
    hide OpensTo, KeyLess;
    forall k | Old(w', w.rotor.to, k) ensures Covers(w'.rotor.pending, k) || KeyLess(Horizon(w'.rotor), k) {
      if Covers(w.rotor.pending, k) {
        var i :| 0 <= i < |w.rotor.pending| && w.rotor.pending[i].key == k;
        assert w'.rotor.pending[i - 1].key == k;
      }
    }
  }

  lemma RewrapKeepsInv(s: Setup, w: World, nonce: nat)
    requires Inv(s, w)
    ensures Inv(s, Next(s, w, WalkRewrap(nonce)))
  {
    hide RewrapFor, OpenFor, History.Inv, KeyLess, Locate, ConnectionSound;
    var w' := Next(s, w, WalkRewrap(nonce));
    if w.rotor.Walking? && w.rotor.pending != [] && w.rotor.computed.None? && MutexFree(w) {
      var r := w.rotor.pending[0];
      var keys := Keys(w.root, w.kekVersion);
      var moved := RewrapFor(keys, r.key.at.tenant, r.envelope, Locate(r.key), nonce);
      ConnectionSame(s, w, w');
      forall k | k in w.tables.rows ensures RowSound(s, w', k) {
        assert RowSound(s, w, k);
      }
      if moved.Success? {
        RewrapForKeepsMeaning(keys, r.key.at.tenant, r.envelope, Locate(r.key), nonce);
        RewrapNeedsRoot(keys, r.key.at.tenant, r.envelope, Locate(r.key), nonce);
        assert RecordSound(s, w, w.rotor.to, r);
        if !moved.value.changed {
          PopKeepsWalk(s, w, w');
        }
      }
    }
  }

  lemma RewrapNeedsRoot(keys: Keys, tenant: Text, envelope: Envelope, aad: AAD, nonce: nat)
    requires RewrapFor(keys, tenant, envelope, aad, nonce).Success?
    ensures keys.root.Some?
  {}

  lemma ConnectionSame(s: Setup, w: World, w': World)
    requires w'.connection == w.connection && w'.tables == w.tables && w'.storedKek == w.storedKek
    ensures ConnectionSound(s, w') == ConnectionSound(s, w)
  {}

  lemma ReplaceKeepsInv(s: Setup, w: World)
    requires Inv(s, w)
    ensures Inv(s, Next(s, w, WalkReplace))
  {
    hide OpensTo, History.Inv, KeyLess;
    var w' := Next(s, w, WalkReplace);
    if w.rotor.Walking? && w.rotor.pending != [] && w.rotor.computed.Some? && w.connection.Idle? {
      var r, e := w.rotor.pending[0], w.rotor.computed.value;
      var t' := AfterReplace(w.tables, r.key, r.envelope.kekVersion, e);
      History.ReplaceKeepsInv(w.tables, s.keep, r.key, r.envelope.kekVersion, e);
      assert RecordSound(s, w, w.rotor.to, r);
      assert RowSound(s, w, r.key);
      if t' != w.tables {
        assert t'.rows[r.key].envelope == e;
      }
      forall k | k in t'.rows ensures RowSound(s, w', k) {
        assert RowSound(s, w, k);
      }
      forall k | Old(w', w.rotor.to, k) ensures Old(w, w.rotor.to, k) && k != r.key {}
      forall i | 0 < i < |w.rotor.pending| ensures RecordSound(s, w', w.rotor.to, w.rotor.pending[i]) {
        assert RecordSound(s, w, w.rotor.to, w.rotor.pending[i]);
      }
      PopKeepsWalk(s, w, w');
    }
  }

  lemma NextKeepsInv(s: Setup, w: World, step: Step)
    requires Inv(s, w)
    ensures Inv(s, Next(s, w, step))
  {
    hide OpensTo, History.Inv, KeyLess, IsBatch, Covers, Locate;
    match step
    case PutBegin(l, wanted, plaintext) => SameRest(s, w, Next(s, w, step));
    case PutSeal(random) => SealKeepsInv(s, w, random);
    case PutCommit(now) => if w.connection.Sealed? { CommitKeepsInv(s, w, now); }
    case PutRollback => SameRest(s, w, Next(s, w, step));
    case MarkVersions(l, versions, action, now) => MarkKeepsInv(s, w, l, versions, action, now);
    case SealStore => SameRest(s, w, Next(s, w, step));
    case UnsealStore => SameRest(s, w, Next(s, w, step));
    case RotateClaim => RotorOnly(s, w, Next(s, w, step));
    case RotateLock => RotorOnly(s, w, Next(s, w, step));
    case RotateUpdate => UpdateKeepsInv(s, w);
    case RotateUnlock => UnlockKeepsInv(s, w);
    case WalkRead(batch) =>
      if w.rotor.Walking? && w.rotor.pending == [] && IsBatch(w.tables, w.rotor.at, batch) {
        ReadKeepsInv(s, w, batch);
      }
    case WalkRewrap(nonce) => RewrapKeepsInv(s, w, nonce);
    case WalkReplace => ReplaceKeepsInv(s, w);
    case RotateRelease => RotorOnly(s, w, Next(s, w, step));
  }

  lemma RotorOnly(s: Setup, w: World, w': World)
    requires Inv(s, w) && w' == w.(rotor := w'.rotor)
    requires w'.rotor == w.rotor || (MutexFree(w) && (w'.rotor.Resting? || w'.rotor.Claimed? || (w'.rotor.Locked? && w.root.Some?)))
    ensures Inv(s, w')
  {
    hide OpensTo, History.Inv, KeyLess, Covers;
    forall k | k in w.tables.rows ensures RowSound(s, w', k) {
      assert RowSound(s, w, k);
    }
  }

  // ---- over every run ----

  ghost predicate Init(s: Setup, w: World) {
    && s.keep >= 1
    && w.tables == Tables(map[], map[]) && w.put == map[]
    && w.storedKek >= INITIAL_KEK_VERSION
    && w.connection.Idle? && w.rotor.Resting?
    && w.root.None? && w.kekVersion == 0
  }

  ghost function Run(s: Setup, w: World, steps: seq<Step>): World
    decreases |steps|
  {
    if steps == [] then w else Run(s, Next(s, w, steps[0]), steps[1..])
  }

  lemma {:induction false} RunKeepsInv(s: Setup, w: World, steps: seq<Step>)
    requires Inv(s, w)
    ensures Inv(s, Run(s, w, steps))
    decreases |steps|
  {
    hide Inv, Next;
    if steps != [] {
      NextKeepsInv(s, w, steps[0]);
      RunKeepsInv(s, Next(s, w, steps[0]), steps[1..]);
    }
  }

  lemma Reachable(s: Setup, w: World, steps: seq<Step>)
    requires Init(s, w)
    ensures Inv(s, Run(s, w, steps))
  {
    RunKeepsInv(s, w, steps);
  }

  // Once a rotation has succeeded, every row that is not destroyed is at its
  // version or a later one, whatever was interleaved with it.
  lemma RotationMovesEveryLiveRow(s: Setup, w: World, steps: seq<Step>, k: RowKey)
    requires Init(s, w)
    ensures var end := Run(s, w, steps);
      end.rotor.Succeeded? && Live(end.tables, k) ==> end.tables.rows[k].envelope.kekVersion >= end.rotor.to
  {
    Reachable(s, w, steps);
    var end := Run(s, w, steps);
    if end.rotor.Succeeded? {
      assert !Old(end, end.rotor.to, k);
    }
  }

  // Nothing is ever put twice at one version.
  lemma {:induction false} PutOnce(s: Setup, w: World, steps: seq<Step>, k: RowKey)
    requires Inv(s, w) && k in w.put
    ensures k in Run(s, w, steps).put && Run(s, w, steps).put[k] == w.put[k]
    decreases |steps|
  {
    hide Inv;
    if steps != [] {
      NextKeepsInv(s, w, steps[0]);
      StepKeepsPut(s, w, steps[0], k);
      PutOnce(s, Next(s, w, steps[0]), steps[1..], k);
    }
  }

  lemma StepKeepsPut(s: Setup, w: World, step: Step, k: RowKey)
    requires Inv(s, w) && k in w.put
    ensures k in Next(s, w, step).put && Next(s, w, step).put[k] == w.put[k]
  {
    hide History.Inv, Inserted, AfterMark, AfterReplace, SealFor, RewrapFor, Locate, CurrentVersion;
    hide KeysSound, ConnectionSound, RowSound, WalkSound, IsBatch, ValidateLocation;
    if step.PutCommit? && w.connection.Sealed? {
      InsertedAges(s, w, w.connection.l, w.connection.envelope, step.now);
    }
  }

  // ---- the steps and the calls they are taken from ----

  // The seal manager that the world is about, its quorum left out.
  function Manager(w: World, row: SealManager.Config): SealManager.State {
    SealManager.State(Some(row.(kekVersion := w.storedKek)), w.root, w.kekVersion, [])
  }

  // Undisturbed, lock, update and unlock are one call to the manager's Rotate, the walk
  // over the rows being all that is left to do; and the seal step is one to its Seal.
  lemma StepsAreManagers(s: Setup, w: World, row: SealManager.Config)
    requires w.rotor.Claimed? && w.connection.Idle?
    ensures var rotated := Next(s, Next(s, Next(s, w, RotateLock), RotateUpdate), RotateUnlock);
      && Manager(rotated, row) == SealManager.AfterRotate(Manager(w, row))
      && rotated.tables == w.tables && rotated.put == w.put
      && rotated.rotor == if w.root.Some? then Walking(w.storedKek + 1, Start, [], None) else Resting
    ensures var sealed := Next(s, w, SealStore);
      && Manager(sealed, row) == SealManager.AfterSeal(Manager(w, row))
      && Next(s, sealed, UnsealStore) == w.(root := Some(s.master), kekVersion := w.storedKek)
  {}

  // Undisturbed, the steps of a Put are one transaction of the store, and marking is one.
  lemma StepsAreStores(s: Setup, w: World, l: Location, wanted: Expectation, plaintext: Text, random: Random, now: int)
    requires Inv(s, w) && w.connection.Idle? && MutexFree(w)
    ensures var put := Next(s, Next(s, Next(s, w, PutBegin(l, wanted, plaintext)), PutSeal(random)), PutCommit(now));
      var seal := (v: int) => SealFor(Keys(w.root, w.kekVersion), l.tenant, plaintext, Locate(RowKey(l, v)), random);
      var (tables, answer) := AfterPut(w.tables, s.keep, l, wanted, now, seal);
      && put.tables == tables && put.connection.Idle?
      && put.put == if answer.Success? then w.put[RowKey(l, answer.value) := plaintext] else w.put
    ensures forall versions, action ::
      Next(s, w, MarkVersions(l, versions, action, now)).tables == AfterMark(w.tables, l, versions, action, now).0
  {
    hide SealFor, Inserted, AfterMark, RowSound, ConnectionSound, WalkSound, KeysSound;
    var k := RowKey(l, CurrentVersion(w.tables, l) + 1);
    assert k in w.tables.rows ==> History.RowInHistory(w.tables, s.keep, k);
  }

  // What the service's Get answers: the version is resolved in one world, its row is
  // read in a later one and opened in one later still.
  function Get(resolving: World, reading: World, opening: World, l: Location, version: int): Result<Text, StoreError> {
    var resolved :- Resolve(resolving.tables, l, version);
    var row :- Select(reading.tables, RowKey(l, resolved));
    var plain := OpenFor(opening.root, l.tenant, row.envelope, Locate(RowKey(l, resolved)));
    if plain.Success? then Success(plain.value) else Failure(NotSealed(plain.error))
  }

  // A read answers with exactly what was put at that location and version, whatever
  // comes between its statements. A version it has resolved is still stored when it
  // looks, and no envelope it has read fails to open while the store is open.
  lemma GetReturnsWhatWasPut(
      s: Setup, w: World, first: seq<Step>, second: seq<Step>, third: seq<Step>, l: Location, version: int)
    requires Init(s, w)
    ensures var w1 := Run(s, w, first);
      var w2 := Run(s, w1, second);
      var w3 := Run(s, w2, third);
      var resolved := Resolve(w1.tables, l, version);
      var k := RowKey(l, if resolved.Success? then resolved.value else 0);
      && (Get(w1, w2, w3, l, version).Success? ==> k in w3.put && Get(w1, w2, w3, l, version) == Success(w3.put[k]))
      && (Get(w1, w2, w3, l, version).Success? <==> resolved.Success? && Select(w2.tables, k).Success? && w3.root.Some?)
      && (resolved.Success? && version == CURRENT_VERSION ==> k in w2.tables.rows)
  {
    hide OpenFor, History.Inv, WalkSound, ConnectionSound, Locate, Run;
    var w1 := Run(s, w, first);
    var w2 := Run(s, w1, second);
    var w3 := Run(s, w2, third);
    Reachable(s, w, first);
    RunKeepsInv(s, w1, second);
    RunKeepsInv(s, w2, third);
    var resolved := Resolve(w1.tables, l, version);
    if resolved.Success? {
      var k := RowKey(l, resolved.value);
      if version == CURRENT_VERSION {
        CurrentIsStored(w1.tables, s.keep, l);
        PutOnce(s, w1, second, k);
      }
      if Select(w2.tables, k).Success? {
        PutOnce(s, w2, third, k);
        assert RowSound(s, w2, k);
        OpenNeedsRoot(s, w3, k, w2.tables.rows[k].envelope, w2.put[k]);
      }
    }
  }

  // v is the last version put at a location.
  ghost predicate Latest(put: map<RowKey, Text>, l: Location, v: int) {
    RowKey(l, v) in put && forall u :: RowKey(l, u) in put ==> u <= v
  }

  lemma CurrentIsLatest(s: Setup, w: World, l: Location)
    requires Inv(s, w)
    ensures l in w.tables.metadata ==> Latest(w.put, l, w.tables.metadata[l].current)
    ensures l !in w.tables.metadata ==> forall u :: RowKey(l, u) !in w.put
  {
    hide OpensTo, KeysSound, ConnectionSound, RowSound, WalkSound;
    var t := w.tables;
    if l in t.metadata {
      CurrentIsStored(t, s.keep, l);
    }
    forall u | RowKey(l, u) in w.put ensures l in t.metadata && u <= t.metadata[l].current {
      assert RowKey(l, u) in t.rows;
      assert History.RowInHistory(t, s.keep, RowKey(l, u));
    }
  }

  // Which version a read is about, in terms of what has been put: the one it names,
  // or for zero the last one put by the time it was resolved.
  lemma GetAnswersVersion(
      s: Setup, w: World, first: seq<Step>, second: seq<Step>, third: seq<Step>, l: Location, version: int, v: int)
    requires Init(s, w)
    ensures var w1 := Run(s, w, first);
      var w2 := Run(s, w1, second);
      var w3 := Run(s, w2, third);
      var k := RowKey(l, v);
      (version == v > 0 || (version == 0 && Latest(w1.put, l, v))) ==>
        && (Get(w1, w2, w3, l, version).Success? <==>
             && 0 < |l.tenant| <= MAX_TENANT_LEN && 0 < |l.path| <= MAX_PATH_LEN
             && k in w2.tables.rows && w2.tables.rows[k].deleted.None? && w2.tables.rows[k].destroyed.None?
             && w3.root.Some?)
        && (Get(w1, w2, w3, l, version).Success? ==>
             k in w2.put && k in w3.put && Get(w1, w2, w3, l, version) == Success(w3.put[k]))
  {
    hide OpenFor, Locate, Run, Inv;
    var w1 := Run(s, w, first);
    Reachable(s, w, first);
    CurrentIsLatest(s, w1, l);
    RunKeepsInv(s, w1, second);
    PutIsStored(s, Run(s, w1, second));
    GetReturnsWhatWasPut(s, w, first, second, third, l, version);
  }

  lemma PutIsStored(s: Setup, w: World)
    requires Inv(s, w)
    ensures w.put.Keys == w.tables.rows.Keys
  {}

  // And a version below zero, or the current one where nothing was put, has no answer.
  lemma GetAnswersNothing(
      s: Setup, w: World, first: seq<Step>, second: seq<Step>, third: seq<Step>, l: Location, version: int)
    requires Init(s, w)
    ensures var w1 := Run(s, w, first);
      var w2 := Run(s, w1, second);
      var w3 := Run(s, w2, third);
      version < 0 || (version == 0 && forall v :: RowKey(l, v) !in w1.put) ==> Get(w1, w2, w3, l, version).Failure?
  {
    hide OpenFor, Locate, Run, Inv;
    var w1 := Run(s, w, first);
    Reachable(s, w, first);
    CurrentIsLatest(s, w1, l);
    assert version == 0 && l in w1.tables.metadata ==> RowKey(l, w1.tables.metadata[l].current) in w1.put;
  }

  lemma CurrentIsStored(t: Tables, keep: int, l: Location)
    requires History.Inv(t, keep) && l in t.metadata
    ensures RowKey(l, t.metadata[l].current) in t.rows
  {
    assert History.Written(t, RowKey(l, t.metadata[l].current));
  }

  lemma OpenNeedsRoot(s: Setup, w: World, k: RowKey, envelope: Envelope, plaintext: Text)
    requires OpensTo(s, k, envelope, plaintext) && KeysSound(s, w)
    ensures OpenFor(w.root, k.at.tenant, envelope, Locate(k))
      == if w.root.Some? then Success(plaintext) else Failure(StoreSealed)
  {
    hide Open, Locate;
  }

  // While the store is open and no rotation holds the lock, every live row's key
  // version lies between one and the version in memory: the branch for an
  // envelope that is too new is never taken.
  lemma NoRowIsTooNew(s: Setup, w: World, steps: seq<Step>, k: RowKey, nonce: nat)
    requires Init(s, w)
    ensures var end := Run(s, w, steps);
      Live(end.tables, k) && end.root.Some? && MutexFree(end) ==>
        && 1 <= end.tables.rows[k].envelope.kekVersion <= end.kekVersion
        && RewrapFor(Keys(end.root, end.kekVersion), k.at.tenant, end.tables.rows[k].envelope, Locate(k), nonce)
           != Failure(KekVersion)
  {
    hide RewrapFor, Locate, DeriveKek, Open, History.Inv, ConnectionSound, WalkSound, Run;
    Reachable(s, w, steps);
    var end := Run(s, w, steps);
    if Live(end.tables, k) && end.root.Some? && MutexFree(end) {
      assert RowSound(s, end, k);
      NotTooNew(Keys(end.root, end.kekVersion), k.at.tenant, end.tables.rows[k].envelope, Locate(k), nonce);
    }
  }

  // While the store is open the walk's computation on a record it holds never fails:
  // only a seal, or a key version beyond 64 bits, can end a walk with an error.
  lemma WalkNeverFails(s: Setup, w: World, steps: seq<Step>, nonce: nat)
    requires Init(s, w)
    ensures var end := Run(s, w, steps);
      end.rotor.Walking? && end.rotor.pending != [] && end.root.Some? && end.storedKek < 0x8000_0000_0000_0000 ==>
        var r := end.rotor.pending[0];
        RewrapFor(Keys(end.root, end.kekVersion), r.key.at.tenant, r.envelope, Locate(r.key), nonce).Success?
  {
    hide OpenFor, RewrapFor, Locate, DeriveKek, Run, Inv;
    Reachable(s, w, steps);
    var end := Run(s, w, steps);
    if end.rotor.Walking? && end.rotor.pending != [] && end.root.Some? && end.storedKek < 0x8000_0000_0000_0000 {
      HeldRecordRewraps(s, end, nonce);
    }
  }

  lemma HeldRecordRewraps(s: Setup, w: World, nonce: nat)
    requires Inv(s, w) && w.rotor.Walking? && w.rotor.pending != [] && w.root.Some? && w.storedKek < 0x8000_0000_0000_0000
    ensures var r := w.rotor.pending[0];
      RewrapFor(Keys(w.root, w.kekVersion), r.key.at.tenant, r.envelope, Locate(r.key), nonce).Success?
  {
    hide OpenFor, RewrapFor, Locate, DeriveKek, History.Inv;
    var r := w.rotor.pending[0];
    assert RecordSound(s, w, w.rotor.to, r);
    DeriveKekLater(s.master, r.key.at.tenant, r.envelope, Locate(r.key), w.kekVersion);
    RewrapForSucceeds(Keys(w.root, w.kekVersion), r.key.at.tenant, r.envelope, Locate(r.key), nonce);
  }

  // The rotations of a run that have got as far as writing their version.
  ghost function Rotations(s: Setup, w: World, steps: seq<Step>): nat
    decreases |steps|
  {
    if steps == [] then 0
    else
      (if steps[0].RotateUpdate? && w.rotor.Locked? && w.connection.Idle? then 1 else 0)
      + Rotations(s, Next(s, w, steps[0]), steps[1..])
  }

  // The stored version goes up by one for each of them, and at no other time.
  lemma {:induction false} EachRotationRaises(s: Setup, w: World, steps: seq<Step>)
    ensures Run(s, w, steps).storedKek == w.storedKek + Rotations(s, w, steps)
    decreases |steps|
  {
    if steps != [] {
      StepRaises(s, w, steps[0]);
      EachRotationRaises(s, Next(s, w, steps[0]), steps[1..]);
    }
  }

  lemma StepRaises(s: Setup, w: World, step: Step)
    ensures Next(s, w, step).storedKek
      == w.storedKek + if step.RotateUpdate? && w.rotor.Locked? && w.connection.Idle? then 1 else 0
  {
    hide Inserted, AfterMark, AfterReplace, SealFor, RewrapFor, Locate, IsBatch, ValidateLocation, CurrentVersion;
  }
}
