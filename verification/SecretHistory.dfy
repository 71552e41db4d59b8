/** The secret store is an append-only history of versions at every location. */
module SecretHistory {
  import opened Wrappers
  import opened Envelopes
  import opened SecretStore

  // Row k belongs to the history of its location: a version written so far, one
  // of the newest keep while it is live, and empty once it is destroyed.
  predicate RowInHistory(t: Tables, keep: int, k: RowKey)
    requires k in t.rows
  {
    && k.at in t.metadata
    && 1 <= k.version <= t.metadata[k.at].current
    && (t.rows[k].destroyed.None? ==> k.version > t.metadata[k.at].current - keep)
    && (t.rows[k].destroyed.Some? ==>
      t.rows[k].envelope.wrappedDek.Blank? && t.rows[k].envelope.ciphertext.Blank?)
  }

  predicate Written(t: Tables, k: RowKey) {
    k.at in t.metadata && 1 <= k.version <= t.metadata[k.at].current
  }

  ghost predicate Inv(t: Tables, keep: int) {
    && keep >= 1
    && (forall l :: l in t.metadata ==> t.metadata[l].current >= 1)
    && (forall k :: k in t.rows ==> RowInHistory(t, keep, k))
    && (forall k :: Written(t, k) ==> k in t.rows)
  }

  datatype Op =
    | Put(l: Location, wanted: Expectation, now: int, seal: Sealer)
    | Mark(l: Location, versions: seq<int>, action: Action, now: int)
    | Replace(k: RowKey, seen: int, envelope: Envelope)

  function Apply(t: Tables, keep: int, op: Op): Tables {
    match op
    case Put(l, wanted, now, seal) => AfterPut(t, keep, l, wanted, now, seal).0
    case Mark(l, versions, action, now) => AfterMark(t, l, versions, action, now).0
    case Replace(k, seen, envelope) => AfterReplace(t, k, seen, envelope)
  }

  // What one transaction may do to a row that is already stored.
  predicate RowKept(t: Tables, t': Tables, k: RowKey)
    requires k in t.rows
  {
    && k in t'.rows
    && t'.rows[k].created == t.rows[k].created
    && (t.rows[k].destroyed.Some? ==> t'.rows[k] == t.rows[k])
    && (t'.rows[k].destroyed.None? ==> t'.rows[k].envelope.ciphertext == t.rows[k].envelope.ciphertext)
  }

  ghost predicate Extends(t: Tables, t': Tables) {
    && (forall l :: l in t.metadata ==> l in t'.metadata && t'.metadata[l].current >= t.metadata[l].current)
    && (forall k :: k in t.rows ==> RowKept(t, t', k))
  }

  lemma ExtendsTransitive(t: Tables, t': Tables, t'': Tables)
    requires Extends(t, t') && Extends(t', t'')
    ensures Extends(t, t'')
  {
    forall k | k in t.rows ensures RowKept(t, t'', k) {
      assert RowKept(t, t', k) && RowKept(t', t'', k);
    }
  }

  function PrunedRow(row: Row, beyond: bool, now: int): Row {
    if beyond && row.destroyed.None? then Erased(row, now) else row
  }

  lemma InsertedRow(t: Tables, keep: int, l: Location, envelope: Envelope, now: int, k: RowKey)
    requires Inv(t, keep)
    ensures var next := CurrentVersion(t, l) + 1;
      var t' := Inserted(t, keep, l, envelope, now);
      && RowKey(l, next) !in t.rows
      && (k in t'.rows <==> k in t.rows || k == RowKey(l, next))
      && t'.metadata.Keys == t.metadata.Keys + {l}
      && t'.metadata[l].current == next
      && (k.at != l && k.at in t.metadata ==> t'.metadata[k.at] == t.metadata[k.at])
      && (k == RowKey(l, next) ==> t'.rows[k] == Row(envelope, now, None, None))
      && (k in t.rows ==> t'.rows[k] == PrunedRow(t.rows[k], k.at == l && k.version <= next - keep, now))
  {
    var next := CurrentVersion(t, l) + 1;
    assert RowKey(l, next) in t.rows ==> RowInHistory(t, keep, RowKey(l, next));
    if next - keep < 1 && k in t.rows {
      assert RowInHistory(t, keep, k);
    }
  }

  lemma InsertedKeepsInv(t: Tables, keep: int, l: Location, envelope: Envelope, now: int)
    requires Inv(t, keep)
    ensures Inv(Inserted(t, keep, l, envelope, now), keep)
  {
    hide Inserted;
    var t' := Inserted(t, keep, l, envelope, now);
    forall k | k in t'.rows ensures RowInHistory(t', keep, k) {
      InsertedRow(t, keep, l, envelope, now, k);
      if k in t.rows {
        assert RowInHistory(t, keep, k);
      }
    }
    forall k | Written(t', k) ensures k in t'.rows {
      InsertedRow(t, keep, l, envelope, now, k);
      assert Written(t, k) || k == RowKey(l, CurrentVersion(t, l) + 1);
    }
    forall l' | l' in t'.metadata ensures t'.metadata[l'].current >= 1 {
      InsertedRow(t, keep, l, envelope, now, RowKey(l', 0));
    }
  }

  lemma InsertedExtends(t: Tables, keep: int, l: Location, envelope: Envelope, now: int)
    requires Inv(t, keep)
    ensures Extends(t, Inserted(t, keep, l, envelope, now))
  {
    hide Inserted;
    var t' := Inserted(t, keep, l, envelope, now);
    forall k | k in t.rows ensures RowKept(t, t', k) {
      InsertedRow(t, keep, l, envelope, now, k);
    }
    forall l' | l' in t.metadata ensures l' in t'.metadata && t'.metadata[l'].current >= t.metadata[l'].current {
      InsertedRow(t, keep, l, envelope, now, RowKey(l', 0));
    }
  }

  // A write appends exactly one version, the next one, and a refused write
  // changes nothing; the primary key is never violated.
  lemma PutKeepsInv(t: Tables, keep: int, l: Location, wanted: Expectation, now: int, seal: Sealer)
    requires Inv(t, keep)
    ensures var (t', r) := AfterPut(t, keep, l, wanted, now, seal);
      && Inv(t', keep) && Extends(t, t')
      && r != Failure(Constraint)
      && (r.Success? ==>
        && r.value == CurrentVersion(t, l) + 1 == CurrentVersion(t', l)
        && RowKey(l, r.value) in t'.rows
        && Success(t'.rows[RowKey(l, r.value)].envelope) == seal(r.value)
        && t'.rows.Keys == t.rows.Keys + {RowKey(l, r.value)})
      && (r.Failure? ==> t' == t)
  {
    hide Inserted, Inv, Extends;
    SameExtends(t);
    var next := CurrentVersion(t, l) + 1;
    if seal(next).Success? {
      var envelope := seal(next).value;
      InsertedRow(t, keep, l, envelope, now, RowKey(l, next));
      InsertedKeepsInv(t, keep, l, envelope, now);
      InsertedExtends(t, keep, l, envelope, now);
      forall k ensures k in Inserted(t, keep, l, envelope, now).rows <==> k in t.rows || k == RowKey(l, next) {
        InsertedRow(t, keep, l, envelope, now, k);
      }
    }
  }

  lemma MarkKeepsInv(t: Tables, keep: int, l: Location, versions: seq<int>, action: Action, now: int)
    requires Inv(t, keep) && Markable(t, l, versions, action)
    ensures Inv(MarkedTogether(t, l, versions, action, now), keep)
    ensures Extends(t, MarkedTogether(t, l, versions, action, now))
  {
    var t' := MarkedTogether(t, l, versions, action, now);
    forall k | k in t.rows ensures RowInHistory(t', keep, k) && RowKept(t, t', k) {
      assert RowInHistory(t, keep, k);
      if k.at == l && k.version in versions {
        var i :| 0 <= i < |versions| && versions[i] == k.version;
        assert Refusal(t.rows, RowKey(l, versions[i]), action).None?;
      }
    }
    forall k | Written(t', k) ensures k in t'.rows {
      assert Written(t, k);
    }
  }

  lemma ReplaceKeepsInv(t: Tables, keep: int, k: RowKey, seen: int, envelope: Envelope)
    requires Inv(t, keep)
    ensures Inv(AfterReplace(t, k, seen, envelope), keep)
    ensures Extends(t, AfterReplace(t, k, seen, envelope))
  {
    var t' := AfterReplace(t, k, seen, envelope);
    forall k' | k' in t.rows ensures RowInHistory(t', keep, k') && RowKept(t, t', k') {
      assert RowInHistory(t, keep, k');
    }
    forall k' | Written(t', k') ensures k' in t'.rows {
      assert Written(t, k');
    }
  }

  lemma SameExtends(t: Tables)
    ensures Extends(t, t)
  {}

  lemma ApplyKeepsInv(t: Tables, keep: int, op: Op)
    requires Inv(t, keep)
    ensures Inv(Apply(t, keep, op), keep)
    ensures Extends(t, Apply(t, keep, op))
  {
    hide Inv, Extends, AfterPut, AfterReplace, MarkedTogether, Markable;
    SameExtends(t);
    match op
    case Put(l, wanted, now, seal) => PutKeepsInv(t, keep, l, wanted, now, seal);
    case Mark(l, versions, action, now) =>
      var named := Named(t, l, versions);
      if named.Success? && Markable(t, l, named.value, action) {
        MarkKeepsInv(t, keep, l, named.value, action, now);
      }
    case Replace(k, seen, envelope) => ReplaceKeepsInv(t, keep, k, seen, envelope);
  }

  function Run(t: Tables, keep: int, ops: seq<Op>): Tables
    decreases |ops|
  {
    if ops == [] then t else Run(Apply(t, keep, ops[0]), keep, ops[1..])
  }

  lemma {:induction false} RunExtends(t: Tables, keep: int, ops: seq<Op>)
    requires Inv(t, keep)
    ensures Inv(Run(t, keep, ops), keep)
    ensures Extends(t, Run(t, keep, ops))
    decreases |ops|
  {
    hide Apply, Inv, Extends;
    SameExtends(t);
    if ops != [] {
      ApplyKeepsInv(t, keep, ops[0]);
      RunExtends(Apply(t, keep, ops[0]), keep, ops[1..]);
      ExtendsTransitive(t, Apply(t, keep, ops[0]), Run(t, keep, ops));
    }
  }

  lemma {:induction false} RunSplits(t: Tables, keep: int, first: seq<Op>, second: seq<Op>)
    ensures Run(t, keep, first + second) == Run(Run(t, keep, first), keep, second)
    decreases |first|
  {
    hide Apply;
    if first == [] {
      assert first + second == second;
    } else {
      assert (first + second)[1..] == first[1..] + second;
      RunSplits(Apply(t, keep, first[0]), keep, first[1..], second);
    }
  }

  // Whether operation i of a run is a write with this expectation that succeeds.
  predicate Writes(t: Tables, keep: int, ops: seq<Op>, i: nat, l: Location, version: int)
    requires i < |ops|
  {
    var op := ops[i];
    op.Put? && op.l == l && op.wanted == AtVersion(version)
    && AfterPut(Run(t, keep, ops[..i]), keep, l, op.wanted, op.now, op.seal).1.Success?
  }

  // At most one write ever succeeds with a given expected version.
  lemma ExpectationMetOnce(t: Tables, keep: int, ops: seq<Op>, i: nat, j: nat, l: Location, version: int)
    requires Inv(t, keep) && i < |ops| && j < |ops|
    requires Writes(t, keep, ops, i, l, version) && Writes(t, keep, ops, j, l, version)
    ensures i == j
  {
    hide Run, Inserted;
    if i < j {
      SecondWriteConflicts(t, keep, ops, i, j, l, version);
    } else if j < i {
      SecondWriteConflicts(t, keep, ops, j, i, l, version);
    }
  }

  lemma SecondWriteConflicts(t: Tables, keep: int, ops: seq<Op>, i: nat, j: nat, l: Location, version: int)
    requires Inv(t, keep) && i < j < |ops| && Writes(t, keep, ops, i, l, version)
    ensures !Writes(t, keep, ops, j, l, version)
  {
    hide Inserted, Inv;
    var before := Run(t, keep, ops[..i]);
    var op := ops[i];
    RunExtends(t, keep, ops[..i]);
    PutKeepsInv(before, keep, l, op.wanted, op.now, op.seal);
    var after := Apply(before, keep, op);
    assert ops[..j] == ops[..i] + ([op] + ops[i + 1..j]);
    RunSplits(t, keep, ops[..i], [op] + ops[i + 1..j]);
    assert ([op] + ops[i + 1..j])[1..] == ops[i + 1..j];
    RunExtends(after, keep, ops[i + 1..j]);
    assert CurrentVersion(Run(t, keep, ops[..j]), l) >= version + 1;
  }

  // ---- no more than keep versions are live ----

  ghost function LiveVersions(t: Tables, l: Location): set<int> {
    set k | k in t.rows && k.at == l && t.rows[k].destroyed.None? :: k.version
  }

  lemma {:induction false} SmallRange(s: set<int>, low: int, n: nat)
    requires forall v :: v in s ==> low < v <= low + n
    ensures |s| <= n
    decreases n
  {
    if n == 0 {
      assert forall v :: v !in s;
    } else {
      SmallRange(s - {low + n}, low, n - 1);
    }
  }

  lemma AtMostKeepLive(t: Tables, keep: int, l: Location)
    requires Inv(t, keep)
    ensures |LiveVersions(t, l)| <= keep
  {
    if l in t.metadata {
      forall v | v in LiveVersions(t, l) ensures t.metadata[l].current - keep < v <= t.metadata[l].current {
        assert Live(t, RowKey(l, v));
      }
      SmallRange(LiveVersions(t, l), t.metadata[l].current - keep, keep);
    } else {
      assert LiveVersions(t, l) == {};
    }
  }
}
