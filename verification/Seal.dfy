/** The seal: one stored row, the root key in memory, and the shares collected so far. */
module SealManager {
  import opened Wrappers
  import opened Envelopes
  import Shamir
  import Gf = Field

  const KEY_SIZE := 32
  const INITIAL := 1

  type Share = seq<Gf.Byte>

  // The keyed digest of the root, taken as injective.
  datatype KeyCheck = KeyCheck(of: Material)

  datatype Config = Config(shares: int, threshold: int, keyCheck: KeyCheck, kekVersion: int)

  // stored survives a restart; the rest is memory.
  datatype State = State(stored: Option<Config>, root: Option<Material>, kekVersion: int, collected: seq<Share>)

  datatype Phase = Uninitialized | Sealed | Unsealed

  datatype Status = Status(phase: Phase, shares: int, threshold: int, progress: int, kekVersion: int)

  datatype SealError =
    | AlreadyInitialized | NotInitialized | StoreSealed | InvalidShare | UnsealFailed
    | NotSplit(cause: Shamir.ShamirError)

  // ---- what each operation does ----

  function StatusOf(s: State): Status {
    match s.stored
    case None => Status(Uninitialized, 0, 0, |s.collected|, 0)
    case Some(c) =>
      Status(if s.root.Some? then Unsealed else Sealed, c.shares, c.threshold, |s.collected|, c.kekVersion)
  }

  predicate Splittable(shares: int, threshold: int) {
    Shamir.MIN_SHARES <= threshold <= shares <= Shamir.MAX_SHARES
  }

  // root and random are the random bytes Initialize draws.
  function AfterInitialize(s: State, root: Material, shares: int, threshold: int): State {
    if s.stored.Some? || !Splittable(shares, threshold) then s
    else s.(stored := Some(Config(shares, threshold, KeyCheck(root), INITIAL)), root := Some(root), kekVersion := INITIAL)
  }

  predicate Collected(s: State, share: Share)
    requires share != [] && forall i :: 0 <= i < |s.collected| ==> s.collected[i] != []
  {
    exists i :: 0 <= i < |s.collected| && Index(s.collected[i]) == Index(share)
  }

  function Index(share: Share): Gf.Byte
    requires share != []
  {
    share[|share| - 1]
  }

  function Recover(quorum: seq<Share>): Option<Material> {
    if Shamir.WellFormed(quorum) then Some(Shamir.Recovered(quorum)) else None
  }

  predicate Opens(c: Config, quorum: seq<Share>) {
    var root := Recover(quorum);
    root.Some? && |root.value| == KEY_SIZE && KeyCheck(root.value) == c.keyCheck
  }

  predicate Wellformed(s: State) { forall i :: 0 <= i < |s.collected| ==> |s.collected[i]| >= 2 }

  function AfterUnseal(s: State, share: Share): (State, Result<Status, SealError>)
    requires Wellformed(s)
  {
    if |share| < 2 then (s, Failure(InvalidShare))
    else if s.stored.None? then (s, Failure(NotInitialized))
    else if s.root.Some? || Collected(s, share) then (s, Success(StatusOf(s)))
    else
      var c := s.stored.value;
      var quorum := s.collected + [share];
      if |quorum| < c.threshold then
        var s' := s.(collected := quorum);
        (s', Success(StatusOf(s')))
      else if Opens(c, quorum) then
        var s' := s.(collected := [], root := Recover(quorum), kekVersion := c.kekVersion);
        (s', Success(StatusOf(s')))
      else
        (s.(collected := []), Failure(UnsealFailed))
  }

  function AfterSeal(s: State): State { s.(root := None, kekVersion := 0, collected := []) }

  function AfterRotate(s: State): State {
    if s.stored.None? || s.root.None? then s
    else
      var next := s.stored.value.kekVersion + 1;
      s.(stored := Some(s.stored.value.(kekVersion := next)), kekVersion := next)
  }

  // ---- the manager ----

  class Manager {
    var stored: Option<Config>
    var root: Option<Material>
    var kekVersion: int
    var collected: seq<Share>

    ghost function View(): State
      reads this
    {
      State(stored, root, kekVersion, collected)
    }

    constructor (row: Option<Config>)
      ensures View() == State(row, None, 0, [])
    {
      stored := row;
      root := None;
      kekVersion := 0;
      collected := [];
    }

    method Initialize(key: Material, random: Shamir.Randomness, shares: int, threshold: int) returns (r: Result<seq<Share>, SealError>)
      requires |key| == KEY_SIZE
      modifies this
      ensures View() == AfterInitialize(old(View()), key, shares, threshold)
      ensures r.Success? <==> old(stored).None? && Splittable(shares, threshold)
      ensures r.Success? ==>
        && |r.value| == shares
        && forall i :: 0 <= i < shares ==> r.value[i] == Shamir.Share(key, random, threshold, i)
      ensures old(stored).Some? ==> r == Failure(AlreadyInitialized)
      ensures (r.Success? ==>
        && stored == Some(Config(shares, threshold, KeyCheck(key), 1)) && root == Some(key) && kekVersion == 1
        && collected == old(collected))
      ensures (r.Failure? ==>
        stored == old(stored) && root == old(root) && kekVersion == old(kekVersion) && collected == old(collected))
    {
      if stored.Some? {
        return Failure(AlreadyInitialized);
      }
      var split := Shamir.Split(key, shares, threshold, random);
      if split.Failure? {
        return Failure(NotSplit(split.error));
      }
      stored := Some(Config(shares, threshold, KeyCheck(key), INITIAL));
      root := Some(key);
      kekVersion := INITIAL;
      return Success(split.value);
    }

    method AlreadyCollected(share: Share) returns (r: bool)
      requires share != [] && Wellformed(View())
      ensures r == Collected(View(), share)
    {
      var index := share[|share| - 1];
      for i := 0 to |collected|
        invariant forall j :: 0 <= j < i ==> Index(collected[j]) != index
      {
        if collected[i][|collected[i]| - 1] == index {
          return true;
        }
      }
      return false;
    }

    method CurrentStatus() returns (r: Status)
      ensures r == StatusOf(View())
    {
      var phase := if stored.None? then Uninitialized else if root.Some? then Unsealed else Sealed;
      if stored.None? {
        return Status(phase, 0, 0, |collected|, 0);
      }
      return Status(phase, stored.value.shares, stored.value.threshold, |collected|, stored.value.kekVersion);
    }

    method Unseal(share: Share) returns (r: Result<Status, SealError>)
      requires Wellformed(View())
      modifies this
      ensures (View(), r) == AfterUnseal(old(View()), share)
      ensures Wellformed(View())
      ensures stored == old(stored)
      // Nothing changes for a share that is malformed, not wanted, or a repeat.
      ensures |share| < 2 ==> r == Failure(InvalidShare)
      ensures |share| >= 2 && old(stored).None? ==> r == Failure(NotInitialized)
      ensures (|share| < 2 || old(stored).None? || old(root).Some? || old(Collected(View(), share)) ==>
        root == old(root) && kekVersion == old(kekVersion) && collected == old(collected))
      // Whatever is answered without an error is the status as it is then.
      ensures r.Success? ==> r.value == StatusOf(View())
      ensures (|share| >= 2 && old(stored).Some? && (old(root).Some? || old(Collected(View(), share))) ==> r.Success?)
      // One below the threshold is kept; the last of a quorum is not, whatever it does.
      ensures (|share| >= 2 && old(stored).Some? && old(root).None? && !old(Collected(View(), share)) ==>
          if |old(collected)| + 1 < stored.value.threshold then
            r.Success? && root.None? && collected == old(collected) + [share]
          else
            && collected == []
            && (r.Success? <==> root.Some?) && (r.Failure? ==> r.error == UnsealFailed && kekVersion == old(kekVersion))
            && (root.Some? ==> kekVersion == stored.value.kekVersion && KeyCheck(root.value) == stored.value.keyCheck))
    {
      hide Shamir.Recovered, Shamir.WellFormed;
      if |share| < 2 {
        return Failure(InvalidShare);
      }
      if stored.None? {
        return Failure(NotInitialized);
      }
      if root.Some? {
        var now := CurrentStatus();
        return Success(now);
      }
      var repeated := AlreadyCollected(share);
      if repeated {
        var now := CurrentStatus();
        return Success(now);
      }
      collected := collected + [share];
      if |collected| < stored.value.threshold {
        var now := CurrentStatus();
        return Success(now);
      }
      var combined := Shamir.Combine(collected);
      collected := [];
      if combined.Failure? {
        return Failure(UnsealFailed);
      }
      if |combined.value| != KEY_SIZE {
        return Failure(UnsealFailed);
      }
      if KeyCheck(combined.value) != stored.value.keyCheck {
        return Failure(UnsealFailed);
      }
      root := Some(combined.value);
      kekVersion := stored.value.kekVersion;
      var now := CurrentStatus();
      return Success(now);
    }

    method Seal()
      modifies this
      ensures View() == AfterSeal(old(View()))
      ensures root.None? && kekVersion == 0 && collected == [] && stored == old(stored)
    {
      if root.Some? {
        root := None;
      }
      kekVersion := 0;
      collected := [];
    }

    method Rotate() returns (r: Result<(int, int), SealError>)
      modifies this
      ensures View() == AfterRotate(old(View()))
      ensures root == old(root) && collected == old(collected)
      ensures r.Success? <==> old(stored).Some? && old(root).Some?
      ensures (r.Success? ==>
        stored == Some(old(stored).value.(kekVersion := old(stored).value.kekVersion + 1))
        && kekVersion == old(stored).value.kekVersion + 1)
      ensures r.Failure? ==> stored == old(stored) && kekVersion == old(kekVersion)
      ensures r.Success? ==> r.value == (old(stored).value.kekVersion, old(stored).value.kekVersion + 1)
      ensures r.Failure? ==> r.error == if old(stored).None? then NotInitialized else SealError.StoreSealed
    {
      if stored.None? {
        return Failure(NotInitialized);
      }
      if root.None? {
        return Failure(SealError.StoreSealed);
      }
      var current := stored.value.kekVersion;
      var next := current + 1;
      stored := Some(stored.value.(kekVersion := next));
      kekVersion := next;
      return Success((current, next));
    }
  }

  // ---- what holds between any two calls ----

  ghost predicate Inv(s: State) {
    && Wellformed(s)
    && (forall i, j :: 0 <= i < j < |s.collected| ==> Index(s.collected[i]) != Index(s.collected[j]))
    && (s.collected != [] ==> s.stored.Some? && s.root.None?)
    && (s.stored.Some? ==>
      && Splittable(s.stored.value.shares, s.stored.value.threshold)
      && |s.collected| < s.stored.value.threshold
      && s.stored.value.kekVersion >= INITIAL
      && |s.stored.value.keyCheck.of| == KEY_SIZE)
    && (s.root.Some? ==>
      && s.stored.Some?
      && s.stored.value.keyCheck == KeyCheck(s.root.value)
      && s.kekVersion == s.stored.value.kekVersion)
    && (s.root.None? ==> s.kekVersion == 0)
  }

  // Restart is a new process over the same row.
  datatype Op =
    | Initialize(root: Material, shares: int, threshold: int)
    | Unseal(share: Share)
    | Seal
    | Rotate
    | Restart

  predicate Valid(op: Op) { op.Initialize? ==> |op.root| == KEY_SIZE }

  function Apply(s: State, op: Op): State
    requires Wellformed(s)
  {
    match op
    case Initialize(root, shares, threshold) => AfterInitialize(s, root, shares, threshold)
    case Unseal(share) => AfterUnseal(s, share).0
    case Seal => AfterSeal(s)
    case Rotate => AfterRotate(s)
    case Restart => State(s.stored, None, 0, [])
  }

  lemma ApplyKeepsInv(s: State, op: Op)
    requires Inv(s) && Valid(op)
    ensures Inv(Apply(s, op))
    // The row never goes away, its check and its quorum never change, its version never falls.
    ensures s.stored.Some? ==>
      && Apply(s, op).stored.Some?
      && Apply(s, op).stored.value.keyCheck == s.stored.value.keyCheck
      && Apply(s, op).stored.value.shares == s.stored.value.shares
      && Apply(s, op).stored.value.threshold == s.stored.value.threshold
      && Apply(s, op).stored.value.kekVersion >= s.stored.value.kekVersion
  {
    hide Shamir.Recovered, Shamir.WellFormed;
    if op.Unseal? && |op.share| >= 2 && s.stored.Some? && s.root.None? && !Collected(s, op.share) {
      assert forall i :: 0 <= i < |s.collected| ==> Index(s.collected[i]) != Index(op.share);
    }
  }

  function Run(s: State, ops: seq<Op>): State
    requires Inv(s) && forall i :: 0 <= i < |ops| ==> Valid(ops[i])
    decreases |ops|
  {
    if ops == [] then s
    else
      ApplyKeepsInv(s, ops[0]);
      Run(Apply(s, ops[0]), ops[1..])
  }

  // Over every run: the invariant holds, and a root that opens the store later
  // is the root whose check was stored first.
  lemma {:induction false} RunKeepsInv(s: State, ops: seq<Op>)
    requires Inv(s) && forall i :: 0 <= i < |ops| ==> Valid(ops[i])
    ensures Inv(Run(s, ops))
    ensures s.stored.Some? ==>
      && Run(s, ops).stored.Some?
      && (Run(s, ops).root.Some? ==> Run(s, ops).root.value == s.stored.value.keyCheck.of)
      && Run(s, ops).stored.value.keyCheck == s.stored.value.keyCheck
      && Run(s, ops).stored.value.shares == s.stored.value.shares
      && Run(s, ops).stored.value.threshold == s.stored.value.threshold
      && Run(s, ops).stored.value.kekVersion >= s.stored.value.kekVersion
    decreases |ops|
  {
    hide AfterUnseal;
    if ops != [] {
      ApplyKeepsInv(s, ops[0]);
      RunKeepsInv(Apply(s, ops[0]), ops[1..]);
    }
  }

  // When the quorum is complete the collection is emptied whatever happens, and
  // the store opens exactly when the quorum recovers the original root.
  lemma CompleteQuorum(s: State, share: Share)
    requires Inv(s) && s.stored.Some? && s.root.None? && |share| >= 2
    requires !Collected(s, share) && |s.collected| + 1 == s.stored.value.threshold
    ensures var (s', r) := AfterUnseal(s, share);
      && s'.collected == []
      && s'.stored == s.stored
      && (r.Success? <==> s'.root.Some?)
      && (s'.root.Some? <==> Recover(s.collected + [share]) == Some(s.stored.value.keyCheck.of))
      && (r.Failure? ==> r == Failure(UnsealFailed))
  {
    hide Shamir.Recovered, Shamir.WellFormed;
  }

  // ---- any threshold genuine shares, in any order and with repeats ----

  predicate Below(picks: seq<nat>, n: int) { forall i :: 0 <= i < |picks| ==> picks[i] < n }

  // The share numbers in the order they were first submitted.
  function FirstSeen(picks: seq<nat>): (d: seq<nat>)
    ensures forall k :: k in d <==> k in picks
    ensures forall i, j :: 0 <= i < j < |d| ==> d[i] != d[j]
  {
    if picks == [] then []
    else
      var last := picks[|picks| - 1];
      var before := FirstSeen(picks[..|picks| - 1]);
      if last in before then before else before + [last]
  }

  lemma FirstSeenBelow(picks: seq<nat>, n: int)
    requires Below(picks, n)
    ensures Below(FirstSeen(picks), n)
  {
    var d := FirstSeen(picks);
    forall i | 0 <= i < |d| ensures d[i] < n {
      assert d[i] in d;
    }
  }

  function Genuine(root: Material, random: Shamir.Randomness, threshold: nat, picks: seq<nat>): (shares: seq<Share>)
    requires threshold > 0 && Below(picks, Shamir.MAX_SHARES)
    ensures |shares| == |picks|
  {
    seq(|picks|, k requires 0 <= k < |picks| => Shamir.Share(root, random, threshold, picks[k]))
  }

  // One more genuine share on top of the distinct ones already collected.
  lemma GenuineShareAdds(s: State, root: Material, random: Shamir.Randomness, seen: seq<nat>, last: nat)
    requires Inv(s) && s.stored.Some? && s.root.None? && s.stored.value.keyCheck == KeyCheck(root)
    requires Below(seen, s.stored.value.shares) && last < s.stored.value.shares
    requires |seen| < s.stored.value.threshold
    requires forall i, j :: 0 <= i < j < |seen| ==> seen[i] != seen[j]
    requires s.collected == Genuine(root, random, s.stored.value.threshold, seen)
    ensures var c := s.stored.value;
      AfterUnseal(s, Shamir.Share(root, random, c.threshold, last)).0 ==
        if last in seen then s
        else if |seen| + 1 < c.threshold then s.(collected := Genuine(root, random, c.threshold, seen + [last]))
        else s.(root := Some(root), kekVersion := c.kekVersion, collected := [])
  {
    hide Shamir.Recovered, Shamir.WellFormed, Shamir.Eval, Shamir.Point;
    var c := s.stored.value;
    assert (seen + [last])[|seen|] == last;
    var share := Shamir.Share(root, random, c.threshold, last);
    forall i | 0 <= i < |seen| ensures Index(s.collected[i]) == Index(share) <==> seen[i] == last {
      assert (seen + [last])[i] == seen[i];
      Shamir.PointInjective(seen[i], last);
    }
    if last !in seen {
      var picks := seen + [last];
      assert s.collected + [share] == Genuine(root, random, c.threshold, picks);
      if |picks| == c.threshold {
        Shamir.CombineInvertsSplit(root, random, c.threshold, picks);
        assert Genuine(root, random, c.threshold, picks) == Shamir.Picked(root, random, c.threshold, picks);
      }
    }
  }

  function SubmitAll(s: State, shares: seq<Share>): State
    requires Inv(s)
    decreases |shares|
  {
    if shares == [] then s
    else
      ApplyKeepsInv(s, Unseal(shares[0]));
      SubmitAll(AfterUnseal(s, shares[0]).0, shares[1..])
  }

  lemma {:induction false} SubmitOneMore(s: State, shares: seq<Share>, share: Share)
    requires Inv(s)
    ensures Inv(SubmitAll(s, shares))
    ensures SubmitAll(s, shares + [share]) == AfterUnseal(SubmitAll(s, shares), share).0
    decreases |shares|
  {
    hide AfterUnseal;
    ApplyKeepsInv(s, Unseal(share));
    if shares == [] {
      assert [share][1..] == [];
      assert SubmitAll(AfterUnseal(s, share).0, []) == AfterUnseal(s, share).0;
    } else {
      ApplyKeepsInv(s, Unseal(shares[0]));
      assert (shares + [share])[1..] == shares[1..] + [share];
      SubmitOneMore(AfterUnseal(s, shares[0]).0, shares[1..], share);
    }
  }

  // With fewer than threshold different shares the store stays sealed and keeps
  // each of them once; the threshold-th different one opens it, and later ones
  // change nothing.
  lemma {:induction false} GenuineQuorumUnseals(s: State, root: Material, random: Shamir.Randomness, picks: seq<nat>)
    requires Inv(s) && s.stored.Some? && s.root.None? && s.collected == []
    requires s.stored.value.keyCheck == KeyCheck(root)
    requires Below(picks, s.stored.value.shares)
    ensures Below(FirstSeen(picks), s.stored.value.shares)
    ensures var c := s.stored.value;
      SubmitAll(s, Genuine(root, random, c.threshold, picks)) ==
        if |FirstSeen(picks)| < c.threshold then s.(collected := Genuine(root, random, c.threshold, FirstSeen(picks)))
        else s.(root := Some(root), kekVersion := c.kekVersion)
    decreases |picks|
  {
    hide Shamir.Recovered, Shamir.WellFormed, Shamir.Eval, Shamir.Point, Shamir.Share;
    var c := s.stored.value;
    FirstSeenBelow(picks, c.shares);
    if picks == [] {
      assert Genuine(root, random, c.threshold, picks) == [];
    } else {
      var init, last := picks[..|picks| - 1], picks[|picks| - 1];
      var share := Shamir.Share(root, random, c.threshold, last);
      var earlier := Genuine(root, random, c.threshold, init);
      assert Genuine(root, random, c.threshold, picks) == earlier + [share];
      GenuineQuorumUnseals(s, root, random, init);
      SubmitOneMore(s, earlier, share);
      if |FirstSeen(init)| < c.threshold {
        GenuineShareAdds(SubmitAll(s, earlier), root, random, FirstSeen(init), last);
      }
    }
  }

  // What a status tells its reader about genuine shares: how many different ones have
  // come in, until the threshold-th opens the store and the count is gone.
  lemma ProgressCountsShares(s: State, root: Material, random: Shamir.Randomness, picks: seq<nat>)
    requires Inv(s) && s.stored.Some? && s.root.None? && s.collected == []
    requires s.stored.value.keyCheck == KeyCheck(root)
    requires Below(picks, s.stored.value.shares)
    ensures Below(FirstSeen(picks), s.stored.value.shares)
    ensures var c := s.stored.value;
      StatusOf(SubmitAll(s, Genuine(root, random, c.threshold, picks))) ==
        if |FirstSeen(picks)| < c.threshold then Status(Sealed, c.shares, c.threshold, |FirstSeen(picks)|, c.kekVersion)
        else Status(Unsealed, c.shares, c.threshold, 0, c.kekVersion)
  {
    hide SubmitAll, Inv;
    GenuineQuorumUnseals(s, root, random, picks);
  }

  // Shares are under way only while sealed, and never as many as the threshold.
  lemma {:induction false} StatusInEveryRun(s: State, ops: seq<Op>)
    requires Inv(s) && forall i :: 0 <= i < |ops| ==> Valid(ops[i])
    ensures var status := StatusOf(Run(s, ops));
      && (status.progress > 0 ==> status.phase.Sealed? && status.progress < status.threshold)
      && (status.phase.Unsealed? <==> Run(s, ops).root.Some?)
      && (s.stored.Some? ==> !status.phase.Uninitialized? && status.kekVersion >= StatusOf(s).kekVersion)
  {
    hide Run;
    RunKeepsInv(s, ops);
  }

  // The rotations of a run that found the store open.
  function Rotations(s: State, ops: seq<Op>): nat
    requires Inv(s) && forall i :: 0 <= i < |ops| ==> Valid(ops[i])
    decreases |ops|
  {
    if ops == [] then 0
    else
      ApplyKeepsInv(s, ops[0]);
      (if ops[0].Rotate? && s.stored.Some? && s.root.Some? then 1 else 0) + Rotations(Apply(s, ops[0]), ops[1..])
  }

  // The stored version goes up by one for each of them and for nothing else, and while
  // the store is open the version in memory is that one.
  lemma {:induction false} RotationsCounted(s: State, ops: seq<Op>)
    requires Inv(s) && forall i :: 0 <= i < |ops| ==> Valid(ops[i])
    ensures s.stored.Some? ==>
      && Run(s, ops).stored.Some?
      && Run(s, ops).stored.value.kekVersion == s.stored.value.kekVersion + Rotations(s, ops)
      && (Run(s, ops).root.Some? ==> Run(s, ops).kekVersion == s.stored.value.kekVersion + Rotations(s, ops))
    decreases |ops|
  {
    hide Shamir.Recovered, Shamir.WellFormed, Shamir.Share;
    if ops != [] {
      ApplyKeepsInv(s, ops[0]);
      RotationsCounted(Apply(s, ops[0]), ops[1..]);
    }
  }
}
