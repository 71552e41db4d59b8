/**
 What the interleaved parameter walk does to the values: it keeps them exactly when
 no guarded update lands on a ciphertext other than the one it was computed from.
 */
module ParamValues {
  import opened Wrappers
  import opened Encoding
  import opened Envelopes
  import opened Cipher
  import opened ParamStore
  import opened ParamRotation

  predicate OpensTo(master: Material, k: ParamKey, envelope: Envelope, plaintext: Text) {
    OpenFor(Some(master), k.tenant, envelope, Locate(k)) == Success(plaintext)
  }

  // Every row opens to the last value put at its key.
  ghost predicate RowsOpen(master: Material, w: World) {
    forall k :: k in w.rows ==> k in w.put && OpensTo(master, k, w.rows[k], w.put[k])
  }

  // The update passes its guard, on a row whose ciphertext is not the one read.
  predicate LandsElsewhere(w: World, step: Step) {
    && step.WalkReplace? && w.rotor.Walking? && w.rotor.pending != [] && w.rotor.computed.Some?
    && Meets(w.rows, w.rotor.pending[0])
    && w.rows[w.rotor.pending[0].key].ciphertext != w.rotor.pending[0].envelope.ciphertext
  }

  predicate Meets(rows: map<ParamKey, Envelope>, r: Record) {
    r.key in rows && rows[r.key].kekVersion == r.envelope.kekVersion
  }

  // ---- what an envelope that opens is made of ----

  // The ciphertext alone fixes what an envelope opens to, and the wrapping holds the
  // key the ciphertext is under.
  lemma OpenMeaning(master: Material, k: ParamKey, e: Envelope, plaintext: Text)
    requires OpensTo(master, k, e, plaintext)
    ensures e.ciphertext.Box? && e.ciphertext.payload == Bytes(plaintext)
    ensures e.wrappedDek.Box? && e.wrappedDek.payload == KeyBytes(e.ciphertext.key)
  {
    hide DeriveKek, Locate, Encode;
  }

  lemma OtherKeyFails(master: Material, k: ParamKey, e: Envelope, key: Key)
    requires e.wrappedDek.Box? && e.wrappedDek.payload == KeyBytes(key)
    requires e.ciphertext.Box? && e.ciphertext.key != key
    ensures OpenFor(Some(master), k.tenant, e, Locate(k)).Failure?
  {
    hide DeriveKek, Locate, Encode;
  }

  // ---- keeping every value ----

  ghost predicate RecordOpens(master: Material, r: Record) {
    exists plaintext :: OpensTo(master, r.key, r.envelope, plaintext)
  }

  predicate ComputedSound(master: Material, r: Record, computed: Envelope) {
    && OpenFor(Some(master), r.key.tenant, computed, Locate(r.key))
       == OpenFor(Some(master), r.key.tenant, r.envelope, Locate(r.key))
    && computed.ciphertext == r.envelope.ciphertext
  }

  ghost predicate WalkOpens(master: Material, r: Rotor) {
    r.Walking? ==>
      && (forall i :: 0 <= i < |r.pending| ==> RecordOpens(master, r.pending[i]))
      && (r.pending != [] && r.computed.Some? ==> ComputedSound(master, r.pending[0], r.computed.value))
  }

  ghost predicate Opening(master: Material, w: World) {
    && RowsOpen(master, w)
    && (forall id :: id in w.drafts ==> OpensTo(master, w.drafts[id].key, w.drafts[id].envelope, w.drafts[id].plaintext))
    && WalkOpens(master, w.rotor)
  }

  lemma SealOpening(master: Material, w: World, id: nat, key: ParamKey, plaintext: Text, random: Random)
    requires KeysSound(master, w) && Opening(master, w)
    ensures Opening(master, Next(master, w, PutSeal(id, key, plaintext, random)))
  {
    hide SealFor, OpenFor, Locate, WalkOpens;
    var keys := Keys(w.root, w.kekVersion);
    if SealFor(keys, key.tenant, plaintext, Locate(key), random).Success? {
      OpensOnlyForItsTenant(keys, key.tenant, plaintext, Locate(key), random, keys.root, key.tenant, Locate(key));
      SealVersion(keys, key.tenant, plaintext, Locate(key), random);
    }
  }

  lemma RewrapOpening(master: Material, w: World, nonce: nat)
    requires KeysSound(master, w) && Opening(master, w)
    ensures Opening(master, Next(master, w, WalkRewrap(nonce)))
  {
    hide RewrapFor, OpenFor, Locate, RecordOpens;
    if w.rotor.Walking? && w.rotor.pending != [] && w.rotor.computed.None? {
      var r := w.rotor.pending[0];
      var keys := Keys(w.root, w.kekVersion);
      if RewrapFor(keys, r.key.tenant, r.envelope, Locate(r.key), nonce).Success? {
        RewrapForKeepsMeaning(keys, r.key.tenant, r.envelope, Locate(r.key), nonce);
        RewrapBounds(keys, r.key.tenant, r.envelope, Locate(r.key), nonce);
      }
    }
  }

  lemma ReadOpening(master: Material, w: World, batch: seq<Record>)
    requires Opening(master, w) && w.rotor.Walking? && IsBatch(w.rows, w.rotor.at, batch)
    ensures forall i :: 0 <= i < |batch| ==> RecordOpens(master, batch[i])
  {
    hide OpenFor, Locate, KeyLess, Covers;
    forall i | 0 <= i < |batch| ensures RecordOpens(master, batch[i]) {
      assert OpensTo(master, batch[i].key, batch[i].envelope, w.put[batch[i].key]);
    }
  }

  // The row that an update leaves behind opens to the value put there if and only if
  // the row still had the ciphertext that was read. The data keys are distinct: no
  // two ciphertexts are under one key.
  lemma ReplaceKeepsValueExactly(master: Material, w: World)
    requires Opening(master, w) && Bounded(w)
    requires w.rotor.Walking? && w.rotor.pending != [] && w.rotor.computed.Some? && Meets(w.rows, w.rotor.pending[0])
    ensures var k, rows := w.rotor.pending[0].key, AfterReplace(w.rows, w.rotor.pending[0], w.rotor.computed.value);
      && Next(master, w, WalkReplace).rows == rows
      && k in rows && k in w.put
      && (!LandsElsewhere(w, WalkReplace) ==> OpensTo(master, k, rows[k], w.put[k]))
      && (LandsElsewhere(w, WalkReplace) && UniqueKeys(Ciphertexts(w)) ==>
            OpenFor(Some(master), k.tenant, rows[k], Locate(k)).Failure?)
  {
    hide OpenFor, Locate, Bounded, Ciphertexts;
    var rows := AfterReplace(w.rows, w.rotor.pending[0], w.rotor.computed.value);
    var r, e := w.rotor.pending[0], w.rotor.computed.value;
    var k := r.key;
    assert RecordOpens(master, r);
    var v :| OpensTo(master, k, r.envelope, v);
    OpenMeaning(master, k, r.envelope, v);
    OpenMeaning(master, k, w.rows[k], w.put[k]);
    OpenMeaning(master, k, e, v);
    assert rows[k] == Envelope(e.kekVersion, e.wrappedDek, w.rows[k].ciphertext);
    if LandsElsewhere(w, WalkReplace) && UniqueKeys(Ciphertexts(w)) {
      CiphertextsHold(w, k, 0);
      OtherKeyFails(master, k, rows[k], e.ciphertext.key);
    } else if !LandsElsewhere(w, WalkReplace) {
      assert rows[k] == e;
    }
  }

  lemma ReplaceOpening(master: Material, w: World)
    requires Opening(master, w) && Bounded(w) && !LandsElsewhere(w, WalkReplace)
    ensures Opening(master, Next(master, w, WalkReplace))
  {
    hide OpenFor, Locate, Bounded, RecordOpens;
    if w.rotor.Walking? && w.rotor.pending != [] && w.rotor.computed.Some? {
      if Meets(w.rows, w.rotor.pending[0]) {
        ReplaceKeepsValueExactly(master, w);
      }
    }
  }

  lemma WriteOpening(master: Material, w: World, step: Step)
    requires Opening(master, w) && (step.PutWrite? || step.DeleteRow?)
    ensures Opening(master, Next(master, w, step))
  {
    hide OpensTo, WalkOpens;
  }

  // Every other step leaves rows and drafts alone, and the walk with what it holds.
  lemma RotorOpening(master: Material, w: World, step: Step)
    requires Opening(master, w)
    requires step.SealStore? || step.UnsealStore? || step.RotateClaim? || step.RotateLock?
      || step.RotateUpdate? || step.RotateUnlock? || step.RotateRelease?
    ensures Opening(master, Next(master, w, step))
  {
    hide OpensTo, RecordOpens, ComputedSound;
  }

  lemma StoredSame(master: Material, w: World, w': World)
    requires Opening(master, w) && w' == w.(rotor := w'.rotor) && WalkOpens(master, w'.rotor)
    ensures Opening(master, w')
  {
    hide OpensTo, WalkOpens;
  }

  lemma ReadingOpening(master: Material, w: World, batch: seq<Record>)
    requires Bounded(w) && Opening(master, w)
    ensures Opening(master, Next(master, w, WalkRead(batch)))
  {
    assert w.rotor.Walking? && w.rotor.pending == [] ==> w.rotor.computed.None?;
    hide OpensTo, IsBatch, RecordOpens, ComputedSound, Bounded, Opening;
    if w.rotor.Walking? && w.rotor.pending == [] && IsBatch(w.rows, w.rotor.at, batch) {
      ReadOpening(master, w, batch);
      StoredSame(master, w, Next(master, w, WalkRead(batch)));
    }
  }

  lemma OpeningStep(master: Material, w: World, step: Step)
    requires KeysSound(master, w) && Bounded(w) && Opening(master, w) && !LandsElsewhere(w, step)
    ensures Opening(master, Next(master, w, step))
  {
    hide Next, Opening, KeysSound, Bounded, LandsElsewhere;
    match step
    case PutSeal(id, key, plaintext, random) => SealOpening(master, w, id, key, plaintext, random);
    case PutWrite(_) => WriteOpening(master, w, step);
    case DeleteRow(_) => WriteOpening(master, w, step);
    case WalkRead(batch) => ReadingOpening(master, w, batch);
    case WalkRewrap(nonce) => RewrapOpening(master, w, nonce);
    case WalkReplace => ReplaceOpening(master, w);
    case _ => RotorOpening(master, w, step);
  }

  // ---- distinct data keys ----

  // Every ciphertext about: stored, sealed and not yet written, or read by the walk.
  function Ciphertexts(w: World): set<Blob> {
    (set k | k in w.rows :: w.rows[k].ciphertext)
    + (set id | id in w.drafts :: w.drafts[id].envelope.ciphertext)
    + (if w.rotor.Walking? then set i | 0 <= i < |w.rotor.pending| :: w.rotor.pending[i].envelope.ciphertext else {})
  }

  predicate UniqueKeys(blobs: set<Blob>) {
    forall b, c :: b in blobs && c in blobs && b.Box? && c.Box? && b.key == c.key ==> b == c
  }

  // Data keys in use were drawn before.
  predicate Drawn(blobs: set<Blob>, used: set<nat>) {
    forall b :: b in blobs && b.Box? && b.key.DataKey? ==> b.key.material in used
  }

  lemma CiphertextsHold(w: World, k: ParamKey, i: nat)
    ensures k in w.rows ==> w.rows[k].ciphertext in Ciphertexts(w)
    ensures w.rotor.Walking? && i < |w.rotor.pending| ==> w.rotor.pending[i].envelope.ciphertext in Ciphertexts(w)
  {}

  function Draws(used: set<nat>, step: Step): set<nat> {
    if step.PutSeal? then used + {step.random.dek} else used
  }

  // No data key is drawn twice.
  predicate FreshKeys(used: set<nat>, steps: seq<Step>)
    decreases |steps|
  {
    steps == [] || ((steps[0].PutSeal? ==> steps[0].random.dek !in used) && FreshKeys(Draws(used, steps[0]), steps[1..]))
  }

  lemma SealedUnder(keys: Keys, tenant: Text, plaintext: Text, aad: AAD, random: Random)
    requires SealFor(keys, tenant, plaintext, aad, random).Success?
    ensures var c := SealFor(keys, tenant, plaintext, aad, random).value.ciphertext;
      c.Box? && c.key == DataKey(random.dek)
  {
    hide DeriveKek;
  }

  // A seal brings one ciphertext, under the data key it draws.
  lemma SealCiphertexts(master: Material, w: World, step: Step) returns (drawn: Blob)
    requires step.PutSeal?
    ensures drawn.Box? && drawn.key == DataKey(step.random.dek)
    ensures Ciphertexts(Next(master, w, step)) <= Ciphertexts(w) + {drawn}
  {
    hide SealFor, Locate;
    var keys := Keys(w.root, w.kekVersion);
    var sealed := SealFor(keys, step.key.tenant, step.plaintext, Locate(step.key), step.random);
    if sealed.Success? {
      SealedUnder(keys, step.key.tenant, step.plaintext, Locate(step.key), step.random);
      drawn := sealed.value.ciphertext;
    } else {
      drawn := Box(DataKey(step.random.dek), 0, [], Bytes([]));
    }
  }

  lemma ReplaceCiphertexts(master: Material, w: World)
    ensures Ciphertexts(Next(master, w, WalkReplace)) <= Ciphertexts(w)
  {
    var w' := Next(master, w, WalkReplace);
    forall k | k in w'.rows ensures w'.rows[k].ciphertext == w.rows[k].ciphertext {}
  }

  lemma ReadCiphertexts(master: Material, w: World, batch: seq<Record>)
    ensures Ciphertexts(Next(master, w, WalkRead(batch))) <= Ciphertexts(w)
  {
    hide KeyLess, Covers;
  }

  lemma OtherCiphertexts(master: Material, w: World, step: Step)
    requires !step.PutSeal? && !step.WalkReplace? && !step.WalkRead?
    ensures Ciphertexts(Next(master, w, step)) <= Ciphertexts(w)
  {
    hide RewrapFor, Locate;
  }

  lemma UniqueStep(master: Material, w: World, step: Step, used: set<nat>)
    requires UniqueKeys(Ciphertexts(w)) && Drawn(Ciphertexts(w), used) && FreshKeys(used, [step])
    ensures UniqueKeys(Ciphertexts(Next(master, w, step))) && Drawn(Ciphertexts(Next(master, w, step)), Draws(used, step))
  {
    hide Ciphertexts, Next;
    match step
    case PutSeal(_, _, _, _) =>
      var b := SealCiphertexts(master, w, step);
      var blobs := Ciphertexts(w);
      assert forall c :: c in blobs && c.Box? ==> c.key != b.key;
    case WalkReplace => ReplaceCiphertexts(master, w);
    case WalkRead(batch) => ReadCiphertexts(master, w, batch);
    case _ => OtherCiphertexts(master, w, step);
  }

  // ---- over whole runs ----

  ghost predicate AlwaysOpen(master: Material, w: World, steps: seq<Step>)
    decreases |steps|
  {
    RowsOpen(master, w) && (steps == [] || AlwaysOpen(master, Next(master, w, steps[0]), steps[1..]))
  }

  ghost predicate NeverLandsElsewhere(master: Material, w: World, steps: seq<Step>)
    decreases |steps|
  {
    steps == [] || (!LandsElsewhere(w, steps[0]) && NeverLandsElsewhere(master, Next(master, w, steps[0]), steps[1..]))
  }

  lemma LandingLoses(master: Material, w: World, step: Step)
    requires Bounded(w) && Opening(master, w) && UniqueKeys(Ciphertexts(w)) && LandsElsewhere(w, step)
    ensures !RowsOpen(master, Next(master, w, step))
  {
    hide OpenFor, Locate, Bounded, Opening, Ciphertexts;
    ReplaceKeepsValueExactly(master, w);
    assert w.rotor.pending[0].key in Next(master, w, step).rows;
  }

  lemma {:induction false} AlwaysOpenFrom(master: Material, w: World, steps: seq<Step>, used: set<nat>)
    requires KeysSound(master, w) && Bounded(w) && Opening(master, w)
    requires UniqueKeys(Ciphertexts(w)) && Drawn(Ciphertexts(w), used) && FreshKeys(used, steps)
    ensures AlwaysOpen(master, w, steps) <==> NeverLandsElsewhere(master, w, steps)
    decreases |steps|
  {
    hide KeysSound, Bounded, Next, LandsElsewhere, UniqueKeys, Drawn, Ciphertexts, WalkOpens, RowsOpen;
    if steps != [] {
      var step := steps[0];
      if LandsElsewhere(w, step) {
        LandingLoses(master, w, step);
      } else {
        BoundedStep(master, w, step);
        OpeningStep(master, w, step);
        assert FreshKeys(used, [step]);
        UniqueStep(master, w, step, used);
        AlwaysOpenFrom(master, Next(master, w, step), steps[1..], Draws(used, step));
      }
    }
  }

  lemma InitOpening(master: Material, w: World)
    requires Init(w)
    ensures Opening(master, w) && Ciphertexts(w) == {}
  {}

  // In every run whose seals draw distinct data keys: every row opens to the last
  // value put at every step if and only if no update of the walk lands on a ciphertext
  // other than the one it was computed from.
  lemma ValuesKeptExactly(master: Material, w: World, steps: seq<Step>)
    requires Init(w) && FreshKeys({}, steps)
    ensures AlwaysOpen(master, w, steps) <==> NeverLandsElsewhere(master, w, steps)
  {
    hide AlwaysOpen, NeverLandsElsewhere, Init, Opening, KeysSound, Bounded, FreshKeys;
    InitBounded(master, w);
    InitOpening(master, w);
    AlwaysOpenFrom(master, w, steps, {});
  }

  // Without a landing elsewhere the values are kept whatever keys are drawn.
  lemma {:induction false} ValuesKept(master: Material, w: World, steps: seq<Step>)
    requires KeysSound(master, w) && Bounded(w) && Opening(master, w) && NeverLandsElsewhere(master, w, steps)
    ensures Opening(master, Run(master, w, steps))
    decreases |steps|
  {
    hide KeysSound, Bounded, Next, LandsElsewhere, Opening;
    if steps != [] {
      BoundedStep(master, w, steps[0]);
      OpeningStep(master, w, steps[0]);
      ValuesKept(master, Next(master, w, steps[0]), steps[1..]);
    }
  }

  // ---- runs without a straddling write ----

  // A write whose key version a rotation has overtaken since it was sealed.
  predicate Straddles(w: World, step: Step) {
    step.PutWrite? && step.id in w.drafts && w.drafts[step.id].envelope.kekVersion < w.storedKek
  }

  ghost predicate StraddleFree(master: Material, w: World, steps: seq<Step>)
    decreases |steps|
  {
    steps == [] || (!Straddles(w, steps[0]) && StraddleFree(master, Next(master, w, steps[0]), steps[1..]))
  }

  // While a row is old it has the ciphertext that was read.
  predicate RecordsCurrent(w: World) {
    w.rotor.Walking? ==> forall i :: 0 <= i < |w.rotor.pending| ==> RecordCurrent(w, w.rotor.pending[i])
  }

  predicate RecordCurrent(w: World, r: Record)
    requires w.rotor.Walking?
  {
    Old(w, w.rotor.to, r.key) ==> w.rows[r.key].ciphertext == r.envelope.ciphertext
  }

  lemma CurrentNeverLands(w: World, step: Step)
    requires Bounded(w) && RecordsCurrent(w)
    ensures !LandsElsewhere(w, step)
  {
    assert w.rotor.Walking? && w.rotor.pending != [] ==> RecordCurrent(w, w.rotor.pending[0]);
  }

  lemma CurrentStep(master: Material, w: World, step: Step)
    requires KeysSound(master, w) && Bounded(w) && RecordsCurrent(w) && !Straddles(w, step)
    ensures RecordsCurrent(Next(master, w, step))
  {
    hide KeysSound, Bounded, IsBatch, SealFor, RewrapFor, Locate;
    match step
    case WalkRead(batch) => ReadCurrent(master, w, batch);
    case WalkRewrap(nonce) => RewrapCurrent(master, w, nonce);
    case WalkReplace => ReplaceCurrent(master, w);
    case PutWrite(_) => WriteCurrent(master, w, step);
    case DeleteRow(_) => WriteCurrent(master, w, step);
    case _ =>
  }

  // A row just written is at the current version, so it is not old.
  lemma WriteCurrent(master: Material, w: World, step: Step)
    requires KeysSound(master, w) && RecordsCurrent(w) && !Straddles(w, step) && (step.PutWrite? || step.DeleteRow?)
    ensures RecordsCurrent(Next(master, w, step))
  {
    var w' := Next(master, w, step);
    if w.rotor.Walking? {
      forall i | 0 <= i < |w.rotor.pending| ensures RecordCurrent(w', w'.rotor.pending[i]) {
        assert RecordCurrent(w, w.rotor.pending[i]);
      }
    }
  }

  lemma RewrapCurrent(master: Material, w: World, nonce: nat)
    requires RecordsCurrent(w)
    ensures RecordsCurrent(Next(master, w, WalkRewrap(nonce)))
  {
    hide RewrapFor, Locate;
    var w' := Next(master, w, WalkRewrap(nonce));
    if w'.rotor.Walking? {
      forall i | 0 <= i < |w'.rotor.pending| ensures RecordCurrent(w', w'.rotor.pending[i]) {
        var j := if w'.rotor.pending == w.rotor.pending then i else i + 1;
        assert RecordCurrent(w, w.rotor.pending[j]) && w'.rotor.pending[i] == w.rotor.pending[j];
      }
    }
  }

  lemma ReplaceCurrent(master: Material, w: World)
    requires Bounded(w) && RecordsCurrent(w)
    ensures RecordsCurrent(Next(master, w, WalkReplace))
  {
    hide Bounded;
    var w' := Next(master, w, WalkReplace);
    BoundedReplace(w);
    if w'.rotor.Walking? {
      forall i | 0 <= i < |w'.rotor.pending| ensures RecordCurrent(w', w'.rotor.pending[i]) {
        var j := if w'.rotor.pending == w.rotor.pending then i else i + 1;
        assert RecordCurrent(w, w.rotor.pending[j]) && w'.rotor.pending[i] == w.rotor.pending[j];
      }
    }
  }

  lemma BoundedReplace(w: World)
    requires Bounded(w)
    ensures w.rotor.Walking? && w.rotor.computed.Some? ==> w.rotor.computed.value.kekVersion == w.rotor.to
  {}

  lemma ReadCurrent(master: Material, w: World, batch: seq<Record>)
    requires RecordsCurrent(w)
    ensures RecordsCurrent(Next(master, w, WalkRead(batch)))
  {
    hide KeyLess, Covers;
  }

  lemma {:induction false} StraddleFreeNeverLands(master: Material, w: World, steps: seq<Step>)
    requires KeysSound(master, w) && Bounded(w) && RecordsCurrent(w) && StraddleFree(master, w, steps)
    ensures NeverLandsElsewhere(master, w, steps)
    ensures Escaped(master, w, {}, steps) == {}
    decreases |steps|
  {
    hide KeysSound, Bounded, Next, LandsElsewhere, RecordsCurrent;
    if steps != [] {
      BoundedStep(master, w, steps[0]);
      CurrentStep(master, w, steps[0]);
      CurrentNeverLands(w, steps[0]);
      NothingEscapes(w, steps[0]);
      StraddleFreeNeverLands(master, Next(master, w, steps[0]), steps[1..]);
    }
  }

  lemma NothingEscapes(w: World, step: Step)
    requires !Straddles(w, step)
    ensures EscapedAfter(w, {}, step) == {}
  {}

  // Without a straddling write every row opens to the last value put there, and once
  // a walk has completed every row is at the current key version.
  lemma RotationKeepsEveryValue(master: Material, w: World, steps: seq<Step>, k: ParamKey)
    requires Init(w) && StraddleFree(master, w, steps)
    ensures var end := Run(master, w, steps);
      k in end.rows ==>
        && k in end.put
        && OpenFor(Some(master), k.tenant, end.rows[k], Locate(k)) == Success(end.put[k])
        && (end.rotor.Succeeded? ==> end.rows[k].kekVersion == end.storedKek)
  {
    hide Run, KeysSound, Bounded, StraddleFree, NeverLandsElsewhere, OpenFor, Locate;
    InitBounded(master, w);
    InitOpening(master, w);
    StraddleFreeNeverLands(master, w, steps);
    ValuesKept(master, w, steps);
    OutdatedExactly(master, w, steps);
  }

  // ---- writes that straddle ----

  lemma SealSucceeds(master: Material, k: ParamKey, plaintext: Text, random: Random)
    requires 0 < |k.tenant| <= 64 && |k.path| <= 512
    ensures var aad := Encode(Locate(k));
      var kek := DeriveKek(Some(master), k.tenant, 1);
      && aad.Success? && kek.Success? && DeriveKek(Some(master), k.tenant, 2).Success?
      && SealFor(Keys(Some(master), 1), k.tenant, plaintext, Locate(k), random)
        == Success(Envelope(1, Box(kek.value, random.wrapNonce, aad.value, KeyBytes(DataKey(random.dek))),
                               Box(DataKey(random.dek), random.nonce, aad.value, Bytes(plaintext))))
  {
    DeriveKekSucceeds(master, k.tenant, 1);
    DeriveKekSucceeds(master, k.tenant, 2);
  }

  // A run with one straddling write: the value sealed before the rotation is
  // written between the walk's read and its update, and can never be opened again.
  lemma StraddlingWriteLosesValue(master: Material, k: ParamKey, first: Text, second: Text, r0: Random, r1: Random)
    returns (w: World, steps: seq<Step>)
    requires 0 < |k.tenant| <= 64 && |k.path| <= 512 && r0.dek != r1.dek
    ensures Init(w)
    ensures var end := Run(master, w, steps);
      && k in end.rows && end.put == map[k := second]
      && OpenFor(Some(master), k.tenant, end.rows[k], Locate(k)).Failure?
  {
    hide Run, SealFor, Locate, IsBatch, OpenFor;
    var w4, writes := WriteAndSeal(master, k, first, second, r0, r1);
    var w8, rotates := RotateOver(master, w4);
    var w12, walks := WalkOver(master, w8, k, first, second, r0, r1);
    w := World(map[], 1, None, 0, map[], Resting, map[]);
    steps := writes + (rotates + walks);
    RunSplits(master, w, writes, rotates + walks);
    RunSplits(master, w4, rotates, walks);
  }

  lemma {:induction false} RunSplits(master: Material, w: World, first: seq<Step>, second: seq<Step>)
    ensures Run(master, w, first + second) == Run(master, Run(master, w, first), second)
    decreases |first|
  {
    hide Next;
    if first == [] {
      assert first + second == second;
    } else {
      assert (first + second)[1..] == first[1..] + second;
      RunSplits(master, Next(master, w, first[0]), first[1..], second);
    }
  }

  lemma RunFour(master: Material, w: World, a: Step, b: Step, c: Step, d: Step)
    ensures Run(master, w, [a, b, c, d]) == Next(master, Next(master, Next(master, Next(master, w, a), b), c), d)
  {
    hide Next;
    var w1 := Next(master, w, a);
    var w2 := Next(master, w1, b);
    var w3 := Next(master, w2, c);
    assert [d][1..] == [];
    assert Run(master, w3, [d]) == Run(master, Next(master, w3, d), []);
    assert [c, d][1..] == [d];
    assert Run(master, w2, [c, d]) == Run(master, w3, [d]);
    assert [b, c, d][1..] == [c, d];
    assert [a, b, c, d][1..] == [b, c, d];
  }

  function FirstSealed(master: Material, k: ParamKey, plaintext: Text, random: Random): Envelope
    requires 0 < |k.tenant| <= 64 && |k.path| <= 512
  {
    SealSucceeds(master, k, plaintext, random);
    SealFor(Keys(Some(master), 1), k.tenant, plaintext, Locate(k), random).value
  }

  lemma WriteAndSeal(master: Material, k: ParamKey, first: Text, second: Text, r0: Random, r1: Random)
    returns (w4: World, steps: seq<Step>)
    requires 0 < |k.tenant| <= 64 && |k.path| <= 512
    ensures Run(master, World(map[], 1, None, 0, map[], Resting, map[]), steps) == w4
    ensures w4 == World(map[k := FirstSealed(master, k, first, r0)], 1, Some(master), 1,
      map[1 := Draft(k, second, FirstSealed(master, k, second, r1))], Resting, map[k := first])
  {
    hide SealFor, Locate, IsBatch;
    SealSucceeds(master, k, first, r0);
    SealSucceeds(master, k, second, r1);
    var w0 := World(map[], 1, None, 0, map[], Resting, map[]);
    var w1 := Next(master, w0, UnsealStore);
    var w2 := Next(master, w1, PutSeal(0, k, first, r0));
    var w3 := Next(master, w2, PutWrite(0));
    w4 := Next(master, w3, PutSeal(1, k, second, r1));
    assert w3.drafts == map[];
    steps := [UnsealStore, PutSeal(0, k, first, r0), PutWrite(0), PutSeal(1, k, second, r1)];
    RunFour(master, w0, UnsealStore, PutSeal(0, k, first, r0), PutWrite(0), PutSeal(1, k, second, r1));
  }

  lemma RotateOver(master: Material, w: World) returns (w': World, steps: seq<Step>)
    requires w.rotor.Resting? && w.root.Some?
    ensures Run(master, w, steps) == w' && steps == [RotateClaim, RotateLock, RotateUpdate, RotateUnlock]
    ensures w' == w.(
      storedKek := w.storedKek + 1, kekVersion := w.storedKek + 1, rotor := Walking(w.storedKek + 1, Start, [], None))
  {
    steps := [RotateClaim, RotateLock, RotateUpdate, RotateUnlock];
    RunFour(master, w, RotateClaim, RotateLock, RotateUpdate, RotateUnlock);
    w' := Run(master, w, steps);
  }

  lemma WalkOver(master: Material, w: World, k: ParamKey, first: Text, second: Text, r0: Random, r1: Random)
    returns (w': World, steps: seq<Step>)
    requires 0 < |k.tenant| <= 64 && |k.path| <= 512 && r0.dek != r1.dek
    requires w == World(map[k := FirstSealed(master, k, first, r0)], 2, Some(master), 2,
      map[1 := Draft(k, second, FirstSealed(master, k, second, r1))], Walking(2, Start, [], None), map[k := first])
    ensures Run(master, w, steps) == w'
    ensures k in w'.rows && w'.put == map[k := second]
    ensures OpenFor(Some(master), k.tenant, w'.rows[k], Locate(k)).Failure?
  {
    hide IsBatch, Locate, RewrapFor, OpenFor, FirstSealed;
    var env0, env1 := FirstSealed(master, k, first, r0), FirstSealed(master, k, second, r1);
    var r := Record(k, env0);
    BatchOfOne(w.rows, r);
    MismatchedKeys(master, k, first, second, r0, r1);
    var moved := RewrapFor(Keys(Some(master), 2), k.tenant, env0, Locate(k), 0).value.envelope;
    var w1 := Next(master, w, WalkRead([r]));
    var w2 := Next(master, w1, PutWrite(1));
    assert w2.rows == map[k := env1] && w2.put == map[k := second];
    var w3 := Next(master, w2, WalkRewrap(0));
    assert w3.rotor == Walking(2, k, [r], Some(moved));
    w' := Next(master, w3, WalkReplace);
    steps := [WalkRead([r]), PutWrite(1), WalkRewrap(0), WalkReplace];
    RunFour(master, w, WalkRead([r]), PutWrite(1), WalkRewrap(0), WalkReplace);
  }

  // The rewrapped data key of one value does not open the ciphertext of another.
  lemma MismatchedKeys(master: Material, k: ParamKey, first: Text, second: Text, r0: Random, r1: Random)
    requires 0 < |k.tenant| <= 64 && |k.path| <= 512 && r0.dek != r1.dek
    ensures var env0, env1 := FirstSealed(master, k, first, r0), FirstSealed(master, k, second, r1);
      var moved := RewrapFor(Keys(Some(master), 2), k.tenant, env0, Locate(k), 0);
      && env0.kekVersion == env1.kekVersion
      && moved.Success? && moved.value.changed
      && OpenFor(Some(master), k.tenant, env1.(kekVersion := moved.value.envelope.kekVersion, wrappedDek := moved.value.envelope.wrappedDek),
                 Locate(k)).Failure?
  {
    hide Locate;
    SealSucceeds(master, k, first, r0);
    SealSucceeds(master, k, second, r1);
  }

  lemma BatchOfOne(rows: map<ParamKey, Envelope>, r: Record)
    requires r.key.tenant != [] && rows == map[r.key := r.envelope]
    ensures IsBatch(rows, Start, [r])
  {
    StartsBefore(r.key);
    assert [r][0].key == r.key;
    assert Covers([r], r.key);
  }

  // A write that comes after the walk has completed leaves a row at an older version.
  lemma LateWriteStaysOutdated(master: Material, k: ParamKey, plaintext: Text, random: Random)
    returns (w: World, steps: seq<Step>)
    requires 0 < |k.tenant| <= 64 && |k.path| <= 512
    ensures Init(w) && NeverLandsElsewhere(master, w, steps)
    ensures var end := Run(master, w, steps);
      && end.rotor.Succeeded? && end.rows == map[k := FirstSealed(master, k, plaintext, random)]
      && end.rows[k].kekVersion < end.storedKek
  {
    hide FirstSealed, NeverLandsElsewhere, Run, IsBatch;
    var w2, seals := OpenAndSeal(master, k, plaintext, random);
    var w6, rotates := RotateOver(master, w2);
    BatchOfNone();
    var late := [WalkRead([]), PutWrite(0)];
    w := World(map[], 1, None, 0, map[], Resting, map[]);
    steps := seals + (rotates + late);
    RunTwo(master, w6, WalkRead([]), PutWrite(0));
    RunSplits(master, w, seals, rotates + late);
    RunSplits(master, w2, rotates, late);
    FirstVersion(master, k, plaintext, random);
    NoUpdateNoLanding(master, w, steps);
  }

  lemma FirstVersion(master: Material, k: ParamKey, plaintext: Text, random: Random)
    requires 0 < |k.tenant| <= 64 && |k.path| <= 512
    ensures FirstSealed(master, k, plaintext, random).kekVersion == 1
  {
    hide SealFor, Locate;
    SealSucceeds(master, k, plaintext, random);
  }

  lemma OpenAndSeal(master: Material, k: ParamKey, plaintext: Text, random: Random)
    returns (w2: World, steps: seq<Step>)
    requires 0 < |k.tenant| <= 64 && |k.path| <= 512
    ensures Run(master, World(map[], 1, None, 0, map[], Resting, map[]), steps) == w2
    ensures w2 == World(map[], 1, Some(master), 1,
      map[0 := Draft(k, plaintext, FirstSealed(master, k, plaintext, random))], Resting, map[])
    ensures steps == [UnsealStore, PutSeal(0, k, plaintext, random)]
  {
    hide SealFor, Locate;
    SealSucceeds(master, k, plaintext, random);
    var w0 := World(map[], 1, None, 0, map[], Resting, map[]);
    var w1 := Next(master, w0, UnsealStore);
    w2 := Next(master, w1, PutSeal(0, k, plaintext, random));
    steps := [UnsealStore, PutSeal(0, k, plaintext, random)];
    RunTwo(master, w0, UnsealStore, PutSeal(0, k, plaintext, random));
  }

  lemma BatchOfNone()
    ensures IsBatch(map[], Start, [])
  {}

  lemma RunTwo(master: Material, w: World, a: Step, b: Step)
    ensures Run(master, w, [a, b]) == Next(master, Next(master, w, a), b)
  {
    hide Next;
    assert [a, b][1..] == [b] && [b][1..] == [];
    assert Run(master, Next(master, w, a), [b]) == Run(master, Next(master, Next(master, w, a), b), []);
  }

  lemma {:induction false} NoUpdateNoLanding(master: Material, w: World, steps: seq<Step>)
    requires forall i :: 0 <= i < |steps| ==> !steps[i].WalkReplace?
    ensures NeverLandsElsewhere(master, w, steps)
    decreases |steps|
  {
    hide Next;
    if steps != [] {
      NoUpdateNoLanding(master, Next(master, w, steps[0]), steps[1..]);
    }
  }
}
