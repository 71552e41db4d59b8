/**
 Key rotation over the parameter table, step by step. Put seals first and writes in
 a later statement, so a write can carry a key version that a rotation has meanwhile
 left behind. Such a write straddles the rotation.
 */
module ParamRotation {
  import opened Wrappers
  import opened Encoding
  import opened Envelopes
  import opened Cipher
  import opened ParamStore

  datatype Draft = Draft(key: ParamKey, plaintext: Text, envelope: Envelope)

  datatype Record = Record(key: ParamKey, envelope: Envelope)

  datatype Rotor =
    | Resting
    | Claimed
    | Locked
    | Updated(to: int)
    | Walking(to: int, at: ParamKey, pending: seq<Record>, computed: Option<Envelope>)
    | Succeeded(to: int)

  // drafts are sealed and not yet written; put is the last value written at each key.
  datatype World = World(
    rows: map<ParamKey, Envelope>, storedKek: int,
    root: Option<Material>, kekVersion: int,
    drafts: map<nat, Draft>,
    rotor: Rotor,
    put: map<ParamKey, Text>)

  predicate MutexFree(w: World) { !w.rotor.Locked? && !w.rotor.Updated? }

  predicate Covers(batch: seq<Record>, k: ParamKey) {
    exists i :: 0 <= i < |batch| && batch[i].key == k
  }

  ghost predicate IsBatch(rows: map<ParamKey, Envelope>, at: ParamKey, batch: seq<Record>) {
    && |batch| <= BATCH
    && (forall i :: 0 <= i < |batch| ==>
      batch[i].key in rows && KeyLess(at, batch[i].key) && batch[i].envelope == rows[batch[i].key])
    && (forall i, j :: 0 <= i < j < |batch| ==> KeyLess(batch[i].key, batch[j].key))
    && (forall k :: k in rows && KeyLess(at, k) ==>
      Covers(batch, k) || (|batch| == BATCH && KeyLess(batch[|batch| - 1].key, k)))
  }

  // The guarded update: the row keeps its ciphertext and takes the new wrapping.
  function AfterReplace(rows: map<ParamKey, Envelope>, r: Record, computed: Envelope): map<ParamKey, Envelope> {
    if r.key in rows && rows[r.key].kekVersion == r.envelope.kekVersion then
      rows[r.key := rows[r.key].(kekVersion := computed.kekVersion, wrappedDek := computed.wrappedDek)]
    else rows
  }

  datatype Step =
    | PutSeal(id: nat, key: ParamKey, plaintext: Text, random: Random)
    | PutWrite(id: nat)
    | DeleteRow(key: ParamKey)
    | SealStore
    | UnsealStore
    | RotateClaim
    | RotateLock
    | RotateUpdate
    | RotateUnlock
    | WalkRead(batch: seq<Record>)
    | WalkRewrap(nonce: nat)
    | WalkReplace
    | RotateRelease

  ghost function Next(master: Material, w: World, step: Step): World {
    match step
    case PutSeal(id, key, plaintext, random) =>
      var sealed := SealFor(Keys(w.root, w.kekVersion), key.tenant, plaintext, Locate(key), random);
      if MutexFree(w) && sealed.Success? && id !in w.drafts && key.tenant != []
      then w.(drafts := w.drafts[id := Draft(key, plaintext, sealed.value)]) else w
    case PutWrite(id) =>
      if id in w.drafts then
        var d := w.drafts[id];
        w.(rows := w.rows[d.key := d.envelope], put := w.put[d.key := d.plaintext], drafts := w.drafts - {id})
      else w
    case DeleteRow(key) => w.(rows := w.rows - {key}, put := w.put - {key})
    case SealStore => if MutexFree(w) then w.(root := None, kekVersion := 0) else w
    case UnsealStore =>
      if MutexFree(w) && w.root.None? then w.(root := Some(master), kekVersion := w.storedKek) else w
    case RotateClaim => if w.rotor.Resting? then w.(rotor := Claimed) else w
    case RotateLock =>
      if w.rotor.Claimed? then w.(rotor := if w.root.None? then Resting else Locked) else w
    case RotateUpdate =>
      if w.rotor.Locked? then w.(storedKek := w.storedKek + 1, rotor := Updated(w.storedKek + 1)) else w
    case RotateUnlock =>
      if w.rotor.Updated? then w.(kekVersion := w.rotor.to, rotor := Walking(w.rotor.to, Start, [], None)) else w
    case WalkRead(batch) =>
      if w.rotor.Walking? && w.rotor.pending == [] && IsBatch(w.rows, w.rotor.at, batch)
      then w.(rotor := if batch == [] then Succeeded(w.rotor.to) else w.rotor.(pending := batch)) else w
    case WalkRewrap(nonce) =>
      if w.rotor.Walking? && w.rotor.pending != [] && w.rotor.computed.None? then
        var r := w.rotor.pending[0];
        var moved := RewrapFor(Keys(w.root, w.kekVersion), r.key.tenant, r.envelope, Locate(r.key), nonce);
        if moved.Failure? then w.(rotor := Resting)
        else if moved.value.changed then w.(rotor := w.rotor.(at := r.key, computed := Some(moved.value.envelope)))
        else w.(rotor := w.rotor.(at := r.key, pending := w.rotor.pending[1..]))
      else w
    case WalkReplace =>
      if w.rotor.Walking? && w.rotor.pending != [] && w.rotor.computed.Some? then
        w.(rows := AfterReplace(w.rows, w.rotor.pending[0], w.rotor.computed.value),
           rotor := w.rotor.(pending := w.rotor.pending[1..], computed := None))
      else w
    case RotateRelease => if MutexFree(w) then w.(rotor := Resting) else w
  }

  // ---- versions, in every run ----

  predicate KeysSound(master: Material, w: World) {
    && w.storedKek >= INITIAL_KEK_VERSION
    && (w.root.Some? ==>
      && w.root.value == master
      && w.kekVersion == if w.rotor.Updated? then w.storedKek - 1 else w.storedKek)
    && (w.rotor.Locked? || w.rotor.Updated? ==> w.root.Some?)
    && ((w.rotor.Updated? || w.rotor.Walking?) ==> w.rotor.to == w.storedKek)
    && (w.rotor.Succeeded? ==> w.rotor.to == w.storedKek)
  }

  predicate Fits(w: World, k: ParamKey, envelope: Envelope) { k.tenant != [] && envelope.kekVersion <= w.storedKek }

  // No version is beyond the stored one, and what a walk has computed is for its
  // first record, which was read at an older version.
  predicate Bounded(w: World) {
    && (forall k :: k in w.rows ==> Fits(w, k, w.rows[k]))
    && (forall id :: id in w.drafts ==> Fits(w, w.drafts[id].key, w.drafts[id].envelope))
    && (w.rotor.Walking? && w.rotor.computed.Some? ==>
      && w.rotor.pending != []
      && w.rotor.at == w.rotor.pending[0].key
      && w.rotor.pending[0].envelope.kekVersion < w.rotor.to
      && w.rotor.computed.value.kekVersion == w.rotor.to)
  }

  lemma BoundedStep(master: Material, w: World, step: Step)
    requires KeysSound(master, w) && Bounded(w)
    ensures KeysSound(master, Next(master, w, step)) && Bounded(Next(master, w, step))
  {
    hide KeysSound, Bounded, Next;
    match step
    case PutSeal(_, _, _, _) => SealBounded(master, w, step);
    case PutWrite(_) => WriteBounded(master, w, step);
    case DeleteRow(_) => WriteBounded(master, w, step);
    case WalkRewrap(nonce) => RewrapBounded(master, w, nonce);
    case WalkReplace => ReplaceBounded(master, w);
    case WalkRead(batch) => ReadBounded(master, w, batch);
    case _ => RotorBounded(master, w, step);
  }

  lemma SealBounded(master: Material, w: World, step: Step)
    requires KeysSound(master, w) && Bounded(w) && step.PutSeal?
    ensures KeysSound(master, Next(master, w, step)) && Bounded(Next(master, w, step))
  {
    hide SealFor, Locate;
    var keys := Keys(w.root, w.kekVersion);
    if SealFor(keys, step.key.tenant, step.plaintext, Locate(step.key), step.random).Success? {
      SealVersion(keys, step.key.tenant, step.plaintext, Locate(step.key), step.random);
    }
  }

  lemma WriteBounded(master: Material, w: World, step: Step)
    requires KeysSound(master, w) && Bounded(w) && (step.PutWrite? || step.DeleteRow?)
    ensures KeysSound(master, Next(master, w, step)) && Bounded(Next(master, w, step))
  {}

  lemma ReplaceBounded(master: Material, w: World)
    requires KeysSound(master, w) && Bounded(w)
    ensures KeysSound(master, Next(master, w, WalkReplace)) && Bounded(Next(master, w, WalkReplace))
  {}

  lemma ReadBounded(master: Material, w: World, batch: seq<Record>)
    requires KeysSound(master, w) && Bounded(w)
    ensures KeysSound(master, Next(master, w, WalkRead(batch))) && Bounded(Next(master, w, WalkRead(batch)))
  {
    hide IsBatch;
  }

  lemma RotorBounded(master: Material, w: World, step: Step)
    requires KeysSound(master, w) && Bounded(w)
    requires step.SealStore? || step.UnsealStore? || step.RotateClaim? || step.RotateLock?
      || step.RotateUpdate? || step.RotateUnlock? || step.RotateRelease?
    ensures KeysSound(master, Next(master, w, step)) && Bounded(Next(master, w, step))
  {}

  lemma RewrapBounded(master: Material, w: World, nonce: nat)
    requires KeysSound(master, w) && Bounded(w)
    ensures KeysSound(master, Next(master, w, WalkRewrap(nonce))) && Bounded(Next(master, w, WalkRewrap(nonce)))
  {
    hide RewrapFor, Locate, KeyLess, IsBatch;
    if w.rotor.Walking? && w.rotor.pending != [] && w.rotor.computed.None? {
      var r := w.rotor.pending[0];
      var keys := Keys(w.root, w.kekVersion);
      if RewrapFor(keys, r.key.tenant, r.envelope, Locate(r.key), nonce).Success? {
        RewrapForKeepsMeaning(keys, r.key.tenant, r.envelope, Locate(r.key), nonce);
        RewrapBounds(keys, r.key.tenant, r.envelope, Locate(r.key), nonce);
      }
    }
  }

  lemma RewrapBounds(keys: Keys, tenant: Text, envelope: Envelope, aad: AAD, nonce: nat)
    requires RewrapFor(keys, tenant, envelope, aad, nonce).Success?
    ensures keys.root.Some? && envelope.kekVersion <= keys.kekVersion
  {}

  ghost predicate Init(w: World) {
    && w.rows == map[] && w.put == map[] && w.drafts == map[]
    && w.storedKek >= INITIAL_KEK_VERSION
    && w.rotor.Resting? && w.root.None? && w.kekVersion == 0
  }

  ghost function Run(master: Material, w: World, steps: seq<Step>): World
    decreases |steps|
  {
    if steps == [] then w else Run(master, Next(master, w, steps[0]), steps[1..])
  }

  lemma InitBounded(master: Material, w: World)
    requires Init(w)
    ensures KeysSound(master, w) && Bounded(w)
  {}

  // ---- which rows a completed walk has left behind ----

  predicate Old(w: World, to: int, k: ParamKey) {
    k in w.rows && w.rows[k].kekVersion < to
  }

  function Horizon(r: Rotor): ParamKey
    requires r.Walking?
  {
    if r.pending == [] then r.at else r.pending[|r.pending| - 1].key
  }

  // The walk holds a record for this key, read at this version: its update will
  // find the version it expects.
  predicate Awaits(pending: seq<Record>, k: ParamKey, version: int) {
    exists i :: 0 <= i < |pending| && pending[i].key == k && pending[i].envelope.kekVersion == version
  }

  // A write below the current version that the walk will not come to any more.
  predicate Escapes(w: World, d: Draft) {
    && d.envelope.kekVersion < w.storedKek
    && (w.rotor.Succeeded? || (
         && w.rotor.Walking?
         && !KeyLess(Horizon(w.rotor), d.key)
         && !Awaits(w.rotor.pending, d.key, d.envelope.kekVersion)))
  }

  // The keys whose last write escaped the latest rotation.
  function EscapedAfter(w: World, escaped: set<ParamKey>, step: Step): set<ParamKey> {
    match step
    case PutWrite(id) =>
      if id !in w.drafts then escaped
      else if Escapes(w, w.drafts[id]) then escaped + {w.drafts[id].key}
      else escaped - {w.drafts[id].key}
    case DeleteRow(key) => escaped - {key}
    case RotateUpdate => if w.rotor.Locked? then {} else escaped
    case _ => escaped
  }

  ghost function Escaped(master: Material, w: World, escaped: set<ParamKey>, steps: seq<Step>): set<ParamKey>
    decreases |steps|
  {
    if steps == [] then escaped
    else Escaped(master, Next(master, w, steps[0]), EscapedAfter(w, escaped, steps[0]), steps[1..])
  }

  // The old rows are the escaped ones and those the walk still has to come to.
  ghost predicate Accounted(w: World, escaped: set<ParamKey>) {
    && (w.rotor.Updated? ==> escaped == {})
    && (w.rotor.Walking? ==>
      && (forall k :: Old(w, w.rotor.to, k) ==> k in escaped || Ahead(w, k))
      && (forall k :: k in escaped ==> Old(w, w.rotor.to, k) && !Ahead(w, k)))
    && (w.rotor.Succeeded? ==> forall k :: k in escaped <==> Old(w, w.rotor.to, k))
  }

  predicate Ahead(w: World, k: ParamKey)
    requires w.rotor.Walking? && k in w.rows
  {
    KeyLess(Horizon(w.rotor), k) || Awaits(w.rotor.pending, k, w.rows[k].kekVersion)
  }

  lemma StartsBefore(k: ParamKey)
    requires k.tenant != []
    ensures KeyLess(Start, k)
  {}

  lemma UnlockAccounted(w: World, escaped: set<ParamKey>, w': World)
    requires Bounded(w) && Accounted(w, escaped) && w.rotor.Updated?
    requires w'.rows == w.rows && w'.rotor == Walking(w.rotor.to, Start, [], None)
    ensures Accounted(w', escaped)
  {
    hide KeyLess;
    forall k | k in w.rows ensures KeyLess(Start, k) {
      assert Fits(w, k, w.rows[k]);
      StartsBefore(k);
    }
  }

  lemma ReadAccounted(w: World, escaped: set<ParamKey>, batch: seq<Record>, w': World)
    requires Accounted(w, escaped) && w.rotor.Walking? && w.rotor.pending == [] && IsBatch(w.rows, w.rotor.at, batch)
    requires w' == w.(rotor := if batch == [] then Succeeded(w.rotor.to) else w.rotor.(pending := batch))
    ensures Accounted(w', escaped)
  {
    hide KeyLess;
    var at := w.rotor.at;
    forall k | Old(w, w.rotor.to, k)
      ensures KeyLess(at, k) ==>
        batch != [] && (Awaits(batch, k, w.rows[k].kekVersion) || KeyLess(batch[|batch| - 1].key, k))
      ensures batch != [] && !KeyLess(at, k) ==>
        !Awaits(batch, k, w.rows[k].kekVersion) && !KeyLess(batch[|batch| - 1].key, k)
    {
      if KeyLess(at, k) && Covers(batch, k) {
        var i :| 0 <= i < |batch| && batch[i].key == k;
        assert Awaits(batch, k, w.rows[k].kekVersion);
      }
      if batch != [] && KeyLess(batch[|batch| - 1].key, k) {
        KeyLessTransitive(at, batch[|batch| - 1].key, k);
      }
    }
  }

  // Popping the first record: its row has been moved, or was not at the version read.
  lemma PopAccounted(w: World, escaped: set<ParamKey>, w': World)
    requires Accounted(w, escaped) && w.rotor.Walking? && w.rotor.pending != []
    requires w'.rotor == Walking(w.rotor.to, w.rotor.pending[0].key, w.rotor.pending[1..], None)
    requires forall k :: Old(w', w.rotor.to, k) ==> Old(w, w.rotor.to, k) && w'.rows[k] == w.rows[k]
    requires forall k :: Old(w, w.rotor.to, k) && !Old(w', w.rotor.to, k) ==> Ahead(w, k)
    requires forall k :: Old(w', w.rotor.to, k) ==> !Awaits([w.rotor.pending[0]], k, w.rows[k].kekVersion)
    ensures Accounted(w', escaped)
  {
    hide KeyLess;
    var first, rest := w.rotor.pending[0], w.rotor.pending[1..];
    forall k | Old(w', w.rotor.to, k) ensures Ahead(w', k) <==> Ahead(w, k) {
      AwaitsSplits(w.rotor.pending, k, w.rows[k].kekVersion);
    }
  }

  lemma AwaitsSplits(pending: seq<Record>, k: ParamKey, version: int)
    requires pending != []
    ensures Awaits(pending, k, version) <==> Awaits([pending[0]], k, version) || Awaits(pending[1..], k, version)
  {
    assert [pending[0]][0] == pending[0];
    if Awaits(pending, k, version) {
      var i :| 0 <= i < |pending| && pending[i].key == k && pending[i].envelope.kekVersion == version;
      assert i > 0 ==> pending[1..][i - 1] == pending[i];
    }
    if Awaits(pending[1..], k, version) {
      var i :| 0 <= i < |pending| - 1 && pending[1..][i].key == k && pending[1..][i].envelope.kekVersion == version;
      assert pending[i + 1] == pending[1..][i];
    }
  }

  lemma AwaitsOne(r: Record, k: ParamKey, version: int)
    ensures Awaits([r], k, version) <==> r.key == k && r.envelope.kekVersion == version
  {
    assert [r][0] == r;
  }

  lemma SameAhead(w: World, escaped: set<ParamKey>, w': World)
    requires Accounted(w, escaped) && w.rotor.Walking? && w.rotor.pending != [] && w'.rows == w.rows
    requires w'.rotor.Walking? && w'.rotor == w.rotor.(at := w'.rotor.at, computed := w'.rotor.computed)
    ensures Accounted(w', escaped)
  {
    hide KeyLess, Awaits;
    forall k | k in w.rows ensures Ahead(w', k) == Ahead(w, k) {}
  }

  lemma RewrapAccounted(master: Material, w: World, escaped: set<ParamKey>, nonce: nat)
    requires KeysSound(master, w) && Bounded(w) && Accounted(w, escaped)
    ensures Accounted(Next(master, w, WalkRewrap(nonce)), escaped)
  {
    hide RewrapFor, Locate, KeyLess, IsBatch, Awaits, Ahead;
    var w' := Next(master, w, WalkRewrap(nonce));
    if w.rotor.Walking? && w.rotor.pending != [] && w.rotor.computed.None? {
      var r := w.rotor.pending[0];
      var keys := Keys(w.root, w.kekVersion);
      var moved := RewrapFor(keys, r.key.tenant, r.envelope, Locate(r.key), nonce);
      if moved.Success? {
        RewrapForKeepsMeaning(keys, r.key.tenant, r.envelope, Locate(r.key), nonce);
        RewrapBounds(keys, r.key.tenant, r.envelope, Locate(r.key), nonce);
        if moved.value.changed {
          SameAhead(w, escaped, w');
        } else {
          forall k | Old(w', w.rotor.to, k) ensures !Awaits([r], k, w.rows[k].kekVersion) {
            AwaitsOne(r, k, w.rows[k].kekVersion);
          }
          PopAccounted(w, escaped, w');
        }
      }
    }
  }

  lemma ReplaceAccounted(master: Material, w: World, escaped: set<ParamKey>)
    requires KeysSound(master, w) && Bounded(w) && Accounted(w, escaped)
    ensures Accounted(Next(master, w, WalkReplace), escaped)
  {
    hide KeyLess, IsBatch, Awaits;
    var w' := Next(master, w, WalkReplace);
    if w.rotor.Walking? && w.rotor.pending != [] && w.rotor.computed.Some? {
      var r := w.rotor.pending[0];
      forall k | k in w.rows
        ensures Awaits([r], k, w.rows[k].kekVersion) <==> k == r.key && w.rows[k].kekVersion == r.envelope.kekVersion
        ensures Awaits([r], k, w.rows[k].kekVersion) ==> Ahead(w, k)
      {
        AwaitsOne(r, k, w.rows[k].kekVersion);
        AwaitsSplits(w.rotor.pending, k, w.rows[k].kekVersion);
      }
      PopAccounted(w, escaped, w');
    }
  }

  lemma WriteAccounted(master: Material, w: World, escaped: set<ParamKey>, id: nat)
    requires KeysSound(master, w) && Bounded(w) && Accounted(w, escaped) && id in w.drafts
    ensures Accounted(Next(master, w, PutWrite(id)), EscapedAfter(w, escaped, PutWrite(id)))
  {
    hide KeyLess, IsBatch, Awaits;
    var d := w.drafts[id];
    assert Fits(w, d.key, d.envelope);
    var w' := Next(master, w, PutWrite(id));
    forall to, k | k != d.key ensures Old(w', to, k) == Old(w, to, k) {}
    forall k | k != d.key && k in w.rows && w.rotor.Walking? ensures Ahead(w', k) == Ahead(w, k) {}
  }

  lemma AccountedStep(master: Material, w: World, escaped: set<ParamKey>, step: Step)
    requires KeysSound(master, w) && Bounded(w) && Accounted(w, escaped)
    ensures Accounted(Next(master, w, step), EscapedAfter(w, escaped, step))
  {
    hide SealFor, RewrapFor, Locate, KeyLess, IsBatch, Awaits, Bounded;
    var w' := Next(master, w, step);
    match step
    case PutWrite(id) => if id in w.drafts { WriteAccounted(master, w, escaped, id); }
    case RotateUnlock => if w.rotor.Updated? { UnlockAccounted(w, escaped, w'); }
    case WalkRead(batch) =>
      if w.rotor.Walking? && w.rotor.pending == [] && IsBatch(w.rows, w.rotor.at, batch) {
        ReadAccounted(w, escaped, batch, w');
      }
    case WalkRewrap(nonce) => RewrapAccounted(master, w, escaped, nonce);
    case WalkReplace => ReplaceAccounted(master, w, escaped);
    case _ => OtherAccounted(master, w, escaped, step);
  }

  lemma OtherAccounted(master: Material, w: World, escaped: set<ParamKey>, step: Step)
    requires KeysSound(master, w) && Bounded(w) && Accounted(w, escaped)
    requires !step.PutWrite? && !step.RotateUnlock? && !step.WalkRead? && !step.WalkRewrap? && !step.WalkReplace?
    ensures Accounted(Next(master, w, step), EscapedAfter(w, escaped, step))
  {
    hide SealFor, Locate, KeyLess, Awaits, Bounded;
  }

  lemma {:induction false} RunAccounted(master: Material, w: World, escaped: set<ParamKey>, steps: seq<Step>)
    requires KeysSound(master, w) && Bounded(w) && Accounted(w, escaped)
    ensures KeysSound(master, Run(master, w, steps)) && Bounded(Run(master, w, steps))
    ensures Accounted(Run(master, w, steps), Escaped(master, w, escaped, steps))
    decreases |steps|
  {
    hide KeysSound, Bounded, Accounted, Next, EscapedAfter;
    if steps != [] {
      BoundedStep(master, w, steps[0]);
      AccountedStep(master, w, escaped, steps[0]);
      RunAccounted(master, Next(master, w, steps[0]), EscapedAfter(w, escaped, steps[0]), steps[1..]);
    }
  }

  // In every run: once a walk has completed, the rows not at the current version are
  // exactly those whose last write was sealed below it and came after the walk had
  // passed, so every row is current if and only if there is no such write.
  lemma OutdatedExactly(master: Material, w: World, steps: seq<Step>)
    requires Init(w)
    ensures var end := Run(master, w, steps);
      end.rotor.Succeeded? ==>
        && (forall k :: k in end.rows && end.rows[k].kekVersion != end.storedKek <==> k in Escaped(master, w, {}, steps))
        && ((forall k :: k in end.rows ==> end.rows[k].kekVersion == end.storedKek) <==> Escaped(master, w, {}, steps) == {})
  {
    hide KeyLess, Awaits, Escaped, Run;
    InitBounded(master, w);
    RunAccounted(master, w, {}, steps);
    var end := Run(master, w, steps);
    if end.rotor.Succeeded? {
      forall k ensures k in end.rows && end.rows[k].kekVersion != end.storedKek <==> Old(end, end.rotor.to, k) {
        assert k in end.rows ==> Fits(end, k, end.rows[k]);
      }
      if Escaped(master, w, {}, steps) != {} {
        var k :| k in Escaped(master, w, {}, steps);
        assert Old(end, end.rotor.to, k);
      }
    }
  }
}
