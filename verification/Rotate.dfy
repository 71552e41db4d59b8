/** The rotation endpoint: one rotation at a time, subject after subject. */
module Rotate {
  import opened Wrappers
  import opened Encoding

  datatype Progress = Progress(examined: nat, rewrapped: nat)

  datatype Named = Named(name: Text, progress: Progress)

  // How the rewrap of one subject ends; its progress is reported either way.
  datatype Ending<E> = Ending(name: Text, progress: Progress, error: Option<E>)

  datatype Outcome = Outcome(from: int, to: int, subjects: seq<Named>)

  datatype RotateError<E> = InProgress | KeysFailed(why: E) | SubjectFailed(why: E)

  function Reported<E>(endings: seq<Ending<E>>): (names: seq<Named>)
    ensures |names| == |endings|
  {
    seq(|endings|, i requires 0 <= i < |endings| => Named(endings[i].name, endings[i].progress))
  }

  predicate AllWell<E>(endings: seq<Ending<E>>) { forall i :: 0 <= i < |endings| ==> endings[i].error.None? }

  class Module {
    var busy: bool

    constructor ()
      ensures !busy
    {
      busy := false;
    }

    method Claim() returns (claimed: bool)
      modifies this
      ensures claimed == !old(busy) && busy
    {
      if busy {
        return false;
      }
      busy := true;
      return true;
    }

    method Release()
      modifies this
      ensures !busy
    {
      busy := false;
    }

    // A rotation that finds another running leaves its claim alone; any other
    // gives its own up however it ends. The subjects after a failure are not run.
    method Rotate<E(==)>(keys: Result<(int, int), E>, endings: seq<Ending<E>>)
        returns (outcome: Outcome, error: Option<RotateError<E>>)
      modifies this
      ensures busy == old(busy)
      ensures error == Some(InProgress) <==> old(busy)
      ensures !old(busy) && keys.Failure? ==> error == Some(KeysFailed(keys.error))
      ensures (!old(busy) && keys.Success? ==>
          exists n :: 0 <= n <= |endings| && Ran(keys.value, endings, n, outcome, error))
    {
      var claimed := Claim();
      if !claimed {
        return Outcome(0, 0, []), Some(InProgress);
      }
      if keys.Failure? {
        Release();
        return Outcome(0, 0, []), Some(KeysFailed(keys.error));
      }
      outcome := Outcome(keys.value.0, keys.value.1, []);
      for i := 0 to |endings|
        invariant busy && !old(busy)
        invariant AllWell(endings[..i])
        invariant outcome == Outcome(keys.value.0, keys.value.1, Reported(endings[..i]))
      {
        var ending := endings[i];
        assert Reported(endings[..i + 1]) == Reported(endings[..i]) + [Named(ending.name, ending.progress)];
        outcome := outcome.(subjects := outcome.subjects + [Named(ending.name, ending.progress)]);
        if ending.error.Some? {
          Release();
          error := Some(SubjectFailed(ending.error.value));
          assert Ran(keys.value, endings, i + 1, outcome, error);
          return;
        }
      }
      assert endings[..|endings|] == endings;
      Release();
      error := None;
      assert Ran(keys.value, endings, |endings|, outcome, error);
    }
  }

  // The first n subjects ran: all of them well, or the last of them the first to fail.
  predicate Ran<E(==)>(versions: (int, int), endings: seq<Ending<E>>, n: nat, outcome: Outcome, error: Option<RotateError<E>>)
    requires n <= |endings|
  {
    && outcome == Outcome(versions.0, versions.1, Reported(endings[..n]))
    && (error.None? ==> n == |endings| && AllWell(endings))
    && (error.Some? ==>
         && n > 0 && AllWell(endings[..n - 1])
         && error.value.SubjectFailed? && endings[n - 1].error == Some(error.value.why))
  }
}
