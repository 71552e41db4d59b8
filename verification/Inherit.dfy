/** Where a parameter is looked for: its own path, then the same leaf ever higher up. */
module Inherit {
  import opened Wrappers
  import opened Encoding
  import opened Paths

  function Join(parts: seq<Text>): Text {
    if parts == [] then [] else if |parts| == 1 then parts[0] else parts[0] + [SLASH] + Join(parts[1..])
  }

  // Joining and splitting undo each other.
  lemma {:induction false} SegmentsOfJoin(parts: seq<Text>)
    requires parts != [] && forall i :: 0 <= i < |parts| ==> NoSlash(parts[i])
    ensures Segments(Join(parts)) == parts
    decreases |parts|
  {
    if |parts| == 1 {
      SegmentsPlain(parts[0]);
    } else {
      SegmentsFirst(parts[0], Join(parts[1..]));
      SegmentsOfJoin(parts[1..]);
      assert parts == [parts[0]] + parts[1..];
    }
  }

  lemma {:induction false} JoinOfSegments(s: Text)
    ensures Join(Segments(s)) == s
    ensures forall i :: 0 <= i < |Segments(s)| ==> NoSlash(Segments(s)[i])
  {
    if s != [] {
      JoinOfSegments(s[1..]);
      var rest := Segments(s[1..]);
      if s[0] == SLASH {
        assert Segments(s)[1..] == rest;
        assert Join(Segments(s)) == [] + [SLASH] + Join(rest);
      } else {
        var first := [s[0]] + rest[0];
        assert Segments(s) == [first] + rest[1..];
        assert Segments(s)[1..] == rest[1..];
        assert first + [SLASH] + Join(rest[1..]) == [s[0]] + (rest[0] + [SLASH] + Join(rest[1..]));
        assert [s[0]] + s[1..] == s;
      }
    }
  }

  // The leaf of a path directly under so many of its directories.
  function Scope(path: Text, depth: nat): (parts: seq<Text>)
    requires depth < |Segments(path)|
    ensures |parts| == depth + 1
  {
    Segments(path)[..depth] + [Segments(path)[|Segments(path)| - 1]]
  }

  function ScopePath(path: Text, depth: nat): Text
    requires depth < |Segments(path)|
  {
    Join(Scope(path, depth))
  }

  lemma ScopeSegments(path: Text, depth: nat)
    requires depth < |Segments(path)|
    ensures Segments(ScopePath(path, depth)) == Scope(path, depth)
  {
    JoinOfSegments(path);
    SegmentsOfJoin(Scope(path, depth));
  }

  // Under the first so many directories, and the leaf stays.
  lemma ScopeOfJoin(directories: seq<Text>, leaf: Text, depth: nat)
    requires depth <= |directories| && NoSlash(leaf) && forall i :: 0 <= i < |directories| ==> NoSlash(directories[i])
    ensures var path := Join(directories + [leaf]);
      |Segments(path)| == |directories| + 1 && ScopePath(path, depth) == Join(directories[..depth] + [leaf])
  {
    hide Segments, Join, NoSlash;
    SegmentsOfJoin(directories + [leaf]);
    var parts := directories + [leaf];
    assert parts[..depth] == directories[..depth];
  }

  lemma OwnScope(path: Text)
    ensures ScopePath(path, |Segments(path)| - 1) == path
  {
    JoinOfSegments(path);
    var parts := Segments(path);
    assert parts[..|parts| - 1] + [parts[|parts| - 1]] == parts;
  }

  // One candidate for every depth, the deepest first; the check against a repeat
  // of the candidate before never finds one.
  method InheritanceChain(path: Text) returns (chain: seq<Text>)
    ensures |chain| == |Segments(path)|
    ensures forall i :: 0 <= i < |chain| ==> chain[i] == ScopePath(path, |chain| - 1 - i)
    ensures chain[0] == path
    ensures forall i :: 0 <= i < |chain| ==> Segments(chain[i]) == Scope(path, |chain| - 1 - i)
  {
    hide Segments, Join, Scope;
    var segments := Segments(path);
    var leaf := segments[|segments| - 1];
    OwnScope(path);
    ScopeSegments(path, |segments| - 1);
    chain := [path];
    var depth := |segments| - 1;
    while depth > 0
      invariant 0 <= depth < |segments| && |chain| == |segments| - depth
      invariant chain[0] == path
      invariant forall i :: 0 <= i < |chain| ==> chain[i] == ScopePath(path, |segments| - 1 - i)
      invariant forall i :: 0 <= i < |chain| ==> Segments(chain[i]) == Scope(path, |segments| - 1 - i)
    {
      var candidate := Join(segments[..depth - 1] + [leaf]);
      ScopeUnfolds(path, depth - 1);
      ScopeSegments(path, depth - 1);
      assert |Segments(candidate)| < |Segments(chain[|chain| - 1])|;
      if candidate != chain[|chain| - 1] {
        chain := chain + [candidate];
      }
      depth := depth - 1;
    }
  }

  lemma ScopeUnfolds(path: Text, depth: nat)
    requires depth < |Segments(path)|
    ensures ScopePath(path, depth) == Join(Segments(path)[..depth] + [Segments(path)[|Segments(path)| - 1]])
  {
    hide Segments, Join;
  }

  // What one read answers: NotFound, some other failure, or a value.
  datatype ReadError = NotFound | Unreadable

  type Reader<V> = Text -> Result<V, ReadError>

  // The answer of the deepest scope that holds anything, readable or not.
  method Resolve<V>(path: Text, read: Reader<V>) returns (r: Result<(Text, V), ReadError>)
    ensures (r == Failure(NotFound) <==>
        forall depth :: 0 <= depth < |Segments(path)| ==> read(ScopePath(path, depth)) == Failure(NotFound))
    ensures (r != Failure(NotFound) ==>
        exists depth :: 0 <= depth < |Segments(path)| && Nearest(path, read, depth, r))
  {
    hide Segments, ScopePath, Scope;
    var chain := InheritanceChain(path);
    var n := |chain|;
    for i := 0 to n
      invariant forall depth :: n - i <= depth < n ==> read(ScopePath(path, depth)) == Failure(NotFound)
    {
      var candidate := chain[i];
      assert candidate == ScopePath(path, n - 1 - i);
      var found := read(candidate);
      if found != Failure(NotFound) {
        r := if found.Success? then Success((candidate, found.value)) else Failure(found.error);
        assert Nearest(path, read, n - 1 - i, r);
        return;
      }
    }
    return Failure(NotFound);
  }

  predicate Nearest<V(==)>(path: Text, read: Reader<V>, depth: nat, r: Result<(Text, V), ReadError>)
    requires depth < |Segments(path)|
  {
    && (forall deeper :: depth < deeper < |Segments(path)| ==>
         read(ScopePath(path, deeper)).Failure? && read(ScopePath(path, deeper)).error == NotFound)
    && (match read(ScopePath(path, depth))
        case Success(v) => r.Success? && r.value == (ScopePath(path, depth), v)
        case Failure(e) => e != NotFound && r.Failure? && r.error == e)
  }
}
