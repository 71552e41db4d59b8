/** From every reachable world a rotation that is left alone succeeds. */
module RotationProgress {
  import opened Wrappers
  import opened Encoding
  import opened Envelopes
  import opened Cipher
  import opened SecretStore
  import opened Ordering
  import opened Rotation

  // ---- the order of the rows ----

  lemma KeyLessTotal(a: RowKey, b: RowKey)
    ensures KeyLess(a, b) || a == b || KeyLess(b, a)
    ensures !KeyLess(a, a)
  {
    LessTotal(a.at.tenant, b.at.tenant);
    LessTotal(a.at.path, b.at.path);
    LessTotal(a.at.tenant, a.at.tenant);
    LessTotal(a.at.path, a.at.path);
  }

  lemma KeyLessTransitive(a: RowKey, b: RowKey, c: RowKey)
    requires KeyLess(a, b) && KeyLess(b, c)
    ensures KeyLess(a, c)
  {
    if Less(a.at.tenant, b.at.tenant) && Less(b.at.tenant, c.at.tenant) {
      LessTransitive(a.at.tenant, b.at.tenant, c.at.tenant);
    } else if a.at.tenant == b.at.tenant == c.at.tenant && Less(a.at.path, b.at.path) && Less(b.at.path, c.at.path) {
      LessTransitive(a.at.path, b.at.path, c.at.path);
    }
  }

  lemma {:induction false} LeastKey(keys: set<RowKey>) returns (least: RowKey)
    requires keys != {}
    ensures least in keys && forall k :: k in keys && k != least ==> KeyLess(least, k)
    decreases keys
  {
    hide KeyLess;
    var one :| one in keys;
    var rest := keys - {one};
    if rest == {} {
      least := one;
      assert keys == {one};
    } else {
      var other := LeastKey(rest);
      KeyLessTotal(one, other);
      least := if KeyLess(other, one) then other else one;
      forall k | k in keys && k != least ensures KeyLess(least, k) {
        assert k == one || k in rest;
        if least == one && k != other {
          KeyLessTransitive(one, other, k);
        }
      }
    }
  }

  // ---- the next batch ----

  ghost function Beyond(t: Tables, at: RowKey): set<RowKey> {
    set k | k in t.rows && Live(t, k) && KeyLess(at, k)
  }

  ghost predicate Firsts(keys: set<RowKey>, n: nat, firsts: seq<RowKey>) {
    && |firsts| <= n
    && (forall i :: 0 <= i < |firsts| ==> firsts[i] in keys)
    && (forall i, j :: 0 <= i < j < |firsts| ==> KeyLess(firsts[i], firsts[j]))
    && (forall k :: k in keys ==> k in firsts || (|firsts| == n && (n > 0 ==> KeyLess(firsts[n - 1], k))))
  }

  lemma {:induction false} FirstsExist(keys: set<RowKey>, n: nat) returns (firsts: seq<RowKey>)
    ensures Firsts(keys, n, firsts)
    ensures n > 0 && keys != {} ==> firsts != []
    decreases n
  {
    hide KeyLess;
    firsts := [];
    if n > 0 && keys != {} {
      var least := LeastKey(keys);
      var rest := FirstsExist(keys - {least}, n - 1);
      firsts := [least] + rest;
      forall k | k in keys ensures k in firsts || (|firsts| == n && KeyLess(firsts[n - 1], k)) {
        if k != least {
          assert k in keys - {least};
          assert k in rest ==> k in firsts;
          assert n == 1 ==> firsts[0] == least;
        }
      }
    }
  }

  lemma BatchExists(t: Tables, at: RowKey) returns (batch: seq<Record>)
    ensures IsBatch(t, at, batch)
  {
    hide KeyLess, Live;
    var firsts := FirstsExist(Beyond(t, at), BATCH);
    assert forall k :: k in firsts ==> k in Beyond(t, at);
    batch := seq(|firsts|, i requires 0 <= i < |firsts| => Record(firsts[i], t.rows[firsts[i]].envelope));
    forall k | Live(t, k) && KeyLess(at, k)
      ensures Covers(batch, k) || (|batch| == BATCH && KeyLess(batch[|batch| - 1].key, k))
    {
      LiveIsStored(t, k);
      assert k in Beyond(t, at);
      if k in firsts {
        var i :| 0 <= i < |firsts| && firsts[i] == k;
        assert batch[i].key == k;
      }
    }
  }

  lemma LiveIsStored(t: Tables, k: RowKey)
    requires Live(t, k)
    ensures k in t.rows
  {}

  // Past a batch fewer rows are left.
  lemma FewerBeyond(t: Tables, at: RowKey, batch: seq<Record>)
    requires IsBatch(t, at, batch) && batch != []
    ensures Beyond(t, batch[|batch| - 1].key) < Beyond(t, at)
  {
    hide KeyLess, Live;
    var last := batch[|batch| - 1].key;
    KeyLessTotal(last, last);
    forall k | k in Beyond(t, last) ensures k in Beyond(t, at) {
      KeyLessTransitive(at, last, k);
    }
    LiveIsStored(t, last);
    assert last in Beyond(t, at) && last !in Beyond(t, last);
  }

  // ---- the walk ----

  // The store is open, no transaction is under way, and versions fit in 64 bits.
  ghost predicate Going(s: Setup, w: World) {
    Inv(s, w) && w.rotor.Walking? && w.root.Some? && w.connection.Idle? && w.storedKek < 0x8000_0000_0000_0000
  }

  ghost predicate Carries(w: World, w': World) {
    && w'.root == w.root && w'.storedKek == w.storedKek && w'.kekVersion == w.kekVersion
    && w'.put == w.put && w'.connection == w.connection && w'.tables.metadata == w.tables.metadata
    && (forall k :: Live(w'.tables, k) <==> Live(w.tables, k))
  }

  // What is left of a walk: rows to read, records to look at, and one to rewrap.
  ghost predicate Closer(w: World, w': World)
    requires w.rotor.Walking? && w'.rotor.Walking?
  {
    var (before, after) := (Beyond(w.tables, Horizon(w.rotor)), Beyond(w'.tables, Horizon(w'.rotor)));
    || after < before
    || (after == before && |w'.rotor.pending| < |w.rotor.pending|)
    || (after == before && |w'.rotor.pending| == |w.rotor.pending| && w.rotor.computed.None? && w'.rotor.computed.Some?)
  }

  lemma ReadsOn(s: Setup, w: World) returns (step: Step)
    requires Going(s, w) && w.rotor.pending == []
    ensures var w' := Next(s, w, step);
      Carries(w, w') && (w'.rotor == Succeeded(w.rotor.to) || (w'.rotor.Walking? && w'.rotor.to == w.rotor.to && Closer(w, w')))
  {
    hide Inv, IsBatch, KeyLess, Live;
    var batch := BatchExists(w.tables, w.rotor.at);
    step := WalkRead(batch);
    if batch != [] {
      FewerBeyond(w.tables, w.rotor.at, batch);
    }
  }

  lemma RewrapsOn(s: Setup, w: World)
    requires Going(s, w) && w.rotor.pending != [] && w.rotor.computed.None?
    ensures var w' := Next(s, w, WalkRewrap(0));
      Carries(w, w') && w'.rotor.Walking? && w'.rotor.to == w.rotor.to && Closer(w, w')
  {
    hide Inv, RewrapFor, Locate, KeyLess, Live;
    HeldRecordRewraps(s, w, 0);
  }

  lemma ReplacesOn(s: Setup, w: World)
    requires Going(s, w) && w.rotor.pending != [] && w.rotor.computed.Some?
    ensures var w' := Next(s, w, WalkReplace);
      Carries(w, w') && w'.rotor.Walking? && w'.rotor.to == w.rotor.to && Closer(w, w')
  {
    hide Inv, KeyLess, Live, AfterReplace;
    var r := w.rotor.pending[0];
    var w' := Next(s, w, WalkReplace);
    ComputedForFirst(s, w);
    ReplaceSameLive(w.tables, r.key, r.envelope.kekVersion, w.rotor.computed.value);
    assert Beyond(w'.tables, Horizon(w'.rotor)) == Beyond(w.tables, Horizon(w.rotor));
  }

  lemma ComputedForFirst(s: Setup, w: World)
    requires Inv(s, w) && w.rotor.Walking? && w.rotor.computed.Some?
    ensures w.rotor.pending != [] && w.rotor.at == w.rotor.pending[0].key
  {
    hide KeyLess, RecordSound, RowSound;
  }

  lemma ReplaceSameLive(t: Tables, k: RowKey, seen: int, envelope: Envelope)
    ensures var t' := AfterReplace(t, k, seen, envelope);
      && t'.metadata == t.metadata && t'.rows.Keys == t.rows.Keys
      && (forall j :: Live(t', j) <==> Live(t, j))
  {}

  lemma WalksOn(s: Setup, w: World) returns (step: Step)
    requires Going(s, w)
    ensures var w' := Next(s, w, step);
      && Carries(w, w')
      && (w'.rotor == Succeeded(w.rotor.to) || (Going(s, w') && w'.rotor.to == w.rotor.to && Closer(w, w')))
  {
    hide Inv, Next, Closer;
    if w.rotor.pending == [] {
      step := ReadsOn(s, w);
    } else if w.rotor.computed.None? {
      step := WalkRewrap(0);
      RewrapsOn(s, w);
    } else {
      step := WalkReplace;
      ReplacesOn(s, w);
    }
    NextKeepsInv(s, w, step);
  }

  lemma {:induction false} WalkCompletes(s: Setup, w: World) returns (steps: seq<Step>)
    requires Going(s, w)
    ensures var end := Run(s, w, steps);
      Inv(s, end) && Carries(w, end) && end.rotor == Succeeded(w.rotor.to)
    decreases Beyond(w.tables, Horizon(w.rotor)), |w.rotor.pending|, if w.rotor.computed.None? then 1 else 0
  {
    hide Inv, Next, Live;
    var step := WalksOn(s, w);
    var next := Next(s, w, step);
    NextKeepsInv(s, w, step);
    steps := [step];
    assert steps[1..] == [];
    assert Run(s, next, []) == next;
    if next.rotor != Succeeded(w.rotor.to) {
      var rest := WalkCompletes(s, next);
      steps := [step] + rest;
      assert steps[1..] == rest;
    }
  }

  // ---- a whole rotation ----

  // From every reachable world in which the store is open and nothing is under way, a
  // rotation that is left alone succeeds: the version goes up by one, every row that is
  // not destroyed is at the new version, and nothing that was put is touched.
  lemma RotationCompletes(s: Setup, init: World, first: seq<Step>) returns (steps: seq<Step>)
    requires Init(s, init)
    requires var w := Run(s, init, first);
      MutexFree(w) && w.root.Some? && w.connection.Idle? && w.storedKek + 1 < 0x8000_0000_0000_0000
    ensures var w := Run(s, init, first);
      var end := Run(s, w, steps);
      && end.rotor == Succeeded(w.storedKek + 1)
      && end.storedKek == end.kekVersion == w.storedKek + 1
      && end.root == w.root && end.put == w.put && end.tables.metadata == w.tables.metadata
      && (forall k :: Live(end.tables, k) <==> Live(w.tables, k))
      && (forall k :: Live(end.tables, k) ==>
           && k in w.put
           && end.tables.rows[k].envelope.kekVersion == w.storedKek + 1
           && OpensTo(s, k, end.tables.rows[k].envelope, w.put[k]))
  {
    hide Inv, Next, Live, OpensTo;
    var w := Run(s, init, first);
    Reachable(s, init, first);
    var walking := Starts(s, w);
    var walk := WalkCompletes(s, walking);
    steps := [RotateRelease] + ([RotateClaim] + ([RotateLock] + ([RotateUpdate] + ([RotateUnlock] + walk))));
    StartRuns(s, w, walk);
    AllMoved(s, Run(s, walking, walk));
  }

  lemma Starts(s: Setup, w: World) returns (walking: World)
    requires Inv(s, w) && MutexFree(w) && w.root.Some? && w.connection.Idle?
    requires w.storedKek + 1 < 0x8000_0000_0000_0000
    ensures walking == Next(s, Next(s, Next(s, Next(s, Next(s, w, RotateRelease), RotateClaim), RotateLock), RotateUpdate), RotateUnlock)
    ensures Going(s, walking) && walking.rotor.to == walking.storedKek == walking.kekVersion == w.storedKek + 1
    ensures walking.root == w.root && walking.put == w.put && walking.tables == w.tables
  {
    hide Inv, KeysSound;
    var released := Next(s, w, RotateRelease);
    NextKeepsInv(s, w, RotateRelease);
    var claimed := Next(s, released, RotateClaim);
    NextKeepsInv(s, released, RotateClaim);
    var locked := Next(s, claimed, RotateLock);
    NextKeepsInv(s, claimed, RotateLock);
    var updated := Next(s, locked, RotateUpdate);
    NextKeepsInv(s, locked, RotateUpdate);
    walking := Next(s, updated, RotateUnlock);
    NextKeepsInv(s, updated, RotateUnlock);
  }

  lemma StartRuns(s: Setup, w: World, walk: seq<Step>)
    ensures var steps := [RotateRelease] + ([RotateClaim] + ([RotateLock] + ([RotateUpdate] + ([RotateUnlock] + walk))));
      Run(s, w, steps) == Run(s,
        Next(s, Next(s, Next(s, Next(s, Next(s, w, RotateRelease), RotateClaim), RotateLock), RotateUpdate), RotateUnlock), walk)
  {
    hide Run, Next;
    var fifth := [RotateUnlock] + walk;
    var fourth := [RotateUpdate] + fifth;
    var third := [RotateLock] + fourth;
    var second := [RotateClaim] + third;
    RunFirst(s, w, RotateRelease, second);
    var w1 := Next(s, w, RotateRelease);
    RunFirst(s, w1, RotateClaim, third);
    var w2 := Next(s, w1, RotateClaim);
    RunFirst(s, w2, RotateLock, fourth);
    var w3 := Next(s, w2, RotateLock);
    RunFirst(s, w3, RotateUpdate, fifth);
    RunFirst(s, Next(s, w3, RotateUpdate), RotateUnlock, walk);
  }

  lemma RunFirst(s: Setup, w: World, step: Step, rest: seq<Step>)
    ensures Run(s, w, [step] + rest) == Run(s, Next(s, w, step), rest)
  {
    hide Next;
    assert ([step] + rest)[1..] == rest;
  }

  lemma AllMoved(s: Setup, w: World)
    requires Inv(s, w) && w.rotor.Succeeded?
    ensures w.rotor.to == w.storedKek
    ensures forall k :: Live(w.tables, k) ==>
      k in w.put && w.tables.rows[k].envelope.kekVersion == w.storedKek && OpensTo(s, k, w.tables.rows[k].envelope, w.put[k])
  {
    hide OpensTo, KeyLess;
    forall k | Live(w.tables, k)
      ensures k in w.put && w.tables.rows[k].envelope.kekVersion == w.storedKek
        && OpensTo(s, k, w.tables.rows[k].envelope, w.put[k])
    {
      assert RowSound(s, w, k);
      assert !Old(w, w.rotor.to, k);
    }
  }

  // A walk that finds the store sealed gives up, and leaves every row as it is.
  lemma SealedWalkStops(s: Setup, w: World, nonce: nat)
    requires Inv(s, w) && w.rotor.Walking? && w.rotor.pending != [] && w.rotor.computed.None?
    ensures var w' := Next(s, Next(s, w, SealStore), WalkRewrap(nonce));
      w'.rotor.Resting? && w'.tables == w.tables && w'.storedKek == w.storedKek
  {
    hide Inv;
    var sealed := Next(s, w, SealStore);
    assert w.rotor == sealed.rotor;
  }
}
