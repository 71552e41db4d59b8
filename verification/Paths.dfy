/** Path and segment rules shared by parameters and policies. */
module Paths {
  import opened Encoding
  import opened Limits

  const SLASH: byte := 47
  const DOT: byte := 46

  predicate HasPrefix(s: Text, prefix: Text) { |prefix| <= |s| && s[..|prefix|] == prefix }

  lemma PrefixHead(s: Text, prefix: Text)
    ensures HasPrefix(s, prefix) && prefix != [] ==> s[0] == prefix[0]
  {
    if HasPrefix(s, prefix) && prefix != [] {
      assert s[..|prefix|][0] == s[0];
    }
  }

  predicate HasSuffix(s: Text, suffix: Text) { |suffix| <= |s| && s[|s| - |suffix|..] == suffix }

  // Every Unicode white space character, as its UTF-8 bytes.
  const SPACES: seq<Text> := [
    [9], [10], [11], [12], [13], [32], [0xC2, 0x85], [0xC2, 0xA0], [0xE1, 0x9A, 0x80],
    [0xE2, 0x80, 0x80], [0xE2, 0x80, 0x81], [0xE2, 0x80, 0x82], [0xE2, 0x80, 0x83], [0xE2, 0x80, 0x84], [0xE2, 0x80, 0x85],
    [0xE2, 0x80, 0x86], [0xE2, 0x80, 0x87], [0xE2, 0x80, 0x88], [0xE2, 0x80, 0x89], [0xE2, 0x80, 0x8A], [0xE2, 0x80, 0xA8],
    [0xE2, 0x80, 0xA9], [0xE2, 0x80, 0xAF], [0xE2, 0x81, 0x9F], [0xE3, 0x80, 0x80]]

  const SPACE_COUNT := 25

  function Space(i: nat): (w: Text)
    requires i < SPACE_COUNT
    ensures w != []
  {
    SPACES[i]
  }

  // The length of the white space character at the front, from Space(i) on.
  function SpaceAtFront(s: Text, i: nat): (n: nat)
    requires i <= SPACE_COUNT
    ensures n <= |s|
    decreases SPACE_COUNT - i
  {
    if i == SPACE_COUNT then 0
    else if HasPrefix(s, Space(i)) then |Space(i)|
    else SpaceAtFront(s, i + 1)
  }

  function SpaceAtBack(s: Text, i: nat): (n: nat)
    requires i <= SPACE_COUNT
    ensures n <= |s|
    decreases SPACE_COUNT - i
  {
    if i == SPACE_COUNT then 0
    else if HasSuffix(s, Space(i)) then |Space(i)|
    else SpaceAtBack(s, i + 1)
  }

  function TrimLeft(s: Text): Text
    decreases |s|
  {
    var n := SpaceAtFront(s, 0);
    if n == 0 then s else TrimLeft(s[n..])
  }

  function TrimRight(s: Text): Text
    decreases |s|
  {
    var n := SpaceAtBack(s, 0);
    if n == 0 then s else TrimRight(s[..|s| - n])
  }

  function TrimSpace(s: Text): Text { TrimRight(TrimLeft(s)) }

  // The segments between slashes; there is always at least one.
  function Segments(s: Text): (parts: seq<Text>)
    ensures parts != []
  {
    if s == [] then [[]]
    else
      var rest := Segments(s[1..]);
      if s[0] == SLASH then [[]] + rest else [[s[0]] + rest[0]] + rest[1..]
  }

  predicate NoSlash(s: Text) { SLASH !in s }

  lemma {:induction false} SegmentsPlain(s: Text)
    requires NoSlash(s)
    ensures Segments(s) == [s]
  {
    if s != [] {
      SegmentsPlain(s[1..]);
      assert [s[0]] + s[1..] == s;
    }
  }

  lemma {:induction false} SegmentsFirst(s: Text, rest: Text)
    requires NoSlash(s)
    ensures Segments(s + [SLASH] + rest) == [s] + Segments(rest)
  {
    var whole := s + [SLASH] + rest;
    if s == [] {
      assert whole[1..] == rest;
    } else {
      assert whole[1..] == s[1..] + [SLASH] + rest;
      SegmentsFirst(s[1..], rest);
      assert [s[0]] + s[1..] == s;
    }
  }

  predicate TwoSlashes(s: Text) { exists i :: 0 <= i < |s| - 1 && s[i] == SLASH && s[i + 1] == SLASH }

  predicate SafeSegment(segment: Text) {
    segment != [DOT] && segment != [DOT, DOT] && TrimSpace(segment) == segment
  }

  predicate SafeSegments(s: Text) {
    s == [] || (!TwoSlashes(s) && s[0] != SLASH && forall i :: 0 <= i < |Segments(s)| ==> SafeSegment(Segments(s)[i]))
  }

  predicate SafePath(path: Text) {
    && path != [] && |path| <= MAX_PATH_LEN
    && path[0] != SLASH && !TwoSlashes(path)
    && forall i :: 0 <= i < |Segments(path)| ==> Segments(path)[i] != [] && SafeSegment(Segments(path)[i])
  }

  // ---- what the checks mean for the text of a path ----

  // A stretch of the path between slashes, or between a slash and an end.
  predicate Cut(path: Text, before: Text, segment: Text, after: Text) {
    && path == before + segment + after && NoSlash(segment)
    && (before == [] || before[|before| - 1] == SLASH)
    && (after == [] || after[0] == SLASH)
  }

  function Slashes(s: Text): nat { if s == [] then 0 else (if s[0] == SLASH then 1 else 0) + Slashes(s[1..]) }

  lemma {:induction false} SlashCounted(s: Text)
    ensures s != [] && s[|s| - 1] == SLASH ==> Slashes(s) > 0
    decreases |s|
  {
    if |s| > 1 {
      SlashCounted(s[1..]);
    }
  }

  lemma {:induction false} CutIsSegment(path: Text, before: Text, segment: Text, after: Text)
    requires Cut(path, before, segment, after)
    ensures Slashes(before) < |Segments(path)| && Segments(path)[Slashes(before)] == segment
    decreases |before|
  {
    if before == [] {
      assert path == segment + after;
      if after == [] {
        SegmentsPlain(segment);
        assert path == segment;
      } else {
        SegmentsFirst(segment, after[1..]);
        assert path == segment + [SLASH] + after[1..];
      }
    } else {
      assert path[1..] == before[1..] + segment + after;
      CutIsSegment(path[1..], before[1..], segment, after);
      if before[0] != SLASH {
        SlashCounted(before[1..]);
        assert before[1..] != [];
      }
    }
  }

  lemma CutPrepended(c: byte, rest: Text, before: Text, segment: Text, after: Text)
    requires Cut(rest, before, segment, after)
    ensures before != [] || c == SLASH ==> Cut([c] + rest, [c] + before, segment, after)
    ensures before == [] && c != SLASH ==> Cut([c] + rest, [], [c] + segment, after)
  {
    assert [c] + rest == [c] + before + segment + after;
    assert before == [] ==> [c] + rest == [] + ([c] + segment) + after;
  }

  lemma WholeCut(path: Text)
    ensures path == [] || path[0] == SLASH ==> Cut(path, [], [], path)
  {
    assert path == [] + [] + path;
  }

  lemma {:induction false} SegmentIsCut(path: Text, i: nat) returns (before: Text, after: Text)
    requires i < |Segments(path)|
    ensures Cut(path, before, Segments(path)[i], after) && (i > 0 <==> before != [])
    decreases |path|
  {
    hide Cut;
    if path == [] || (path[0] == SLASH && i == 0) {
      WholeCut(path);
      before, after := [], path;
    } else {
      var c, rest := path[0], path[1..];
      var j := if c == SLASH then i - 1 else i;
      before, after := SegmentIsCut(rest, j);
      CutPrepended(c, rest, before, Segments(rest)[j], after);
      assert path == [c] + rest;
      before := if c == SLASH || i > 0 then [c] + before else [];
    }
  }

  // White space at either end is what trimming takes away.
  predicate SpaceAtAnEnd(s: Text) {
    exists j :: 0 <= j < SPACE_COUNT && (HasPrefix(s, Space(j)) || HasSuffix(s, Space(j)))
  }

  lemma {:induction false} SpaceAtFrontMeaning(s: Text, i: nat)
    requires i <= SPACE_COUNT
    ensures SpaceAtFront(s, i) == 0 <==> forall j :: i <= j < SPACE_COUNT ==> !HasPrefix(s, Space(j))
    decreases SPACE_COUNT - i
  {
    hide HasPrefix, Space;
    if i < SPACE_COUNT {
      SpaceAtFrontMeaning(s, i + 1);
    }
  }

  lemma {:induction false} SpaceAtBackMeaning(s: Text, i: nat)
    requires i <= SPACE_COUNT
    ensures SpaceAtBack(s, i) == 0 <==> forall j :: i <= j < SPACE_COUNT ==> !HasSuffix(s, Space(j))
    decreases SPACE_COUNT - i
  {
    hide HasSuffix, Space;
    if i < SPACE_COUNT {
      SpaceAtBackMeaning(s, i + 1);
    }
  }

  lemma {:induction false} TrimsAway(s: Text)
    ensures if SpaceAtFront(s, 0) == 0 then TrimLeft(s) == s else |TrimLeft(s)| < |s|
    ensures if SpaceAtBack(s, 0) == 0 then TrimRight(s) == s else |TrimRight(s)| < |s|
    decreases |s|
  {
    hide SpaceAtFront, SpaceAtBack;
    var m, n := SpaceAtFront(s, 0), SpaceAtBack(s, 0);
    if m != 0 {
      TrimsAway(s[m..]);
    }
    if n != 0 {
      TrimsAway(s[..|s| - n]);
    }
  }

  lemma TrimSpaceMeaning(s: Text)
    ensures TrimSpace(s) == s <==> !SpaceAtAnEnd(s)
  {
    hide SpaceAtFront, SpaceAtBack, TrimLeft, TrimRight, HasPrefix, HasSuffix, Space;
    TrimsAway(s);
    TrimsAway(TrimLeft(s));
    SpaceAtFrontMeaning(s, 0);
    SpaceAtBackMeaning(s, 0);
  }

  // White space characters one after another.
  function Spaced(ws: seq<nat>): Text
    requires forall k :: 0 <= k < |ws| ==> ws[k] < SPACE_COUNT
  {
    if ws == [] then [] else Space(ws[0]) + Spaced(ws[1..])
  }

  lemma {:induction false} SpacedAppend(ws: seq<nat>, i: nat)
    requires (forall k :: 0 <= k < |ws| ==> ws[k] < SPACE_COUNT) && i < SPACE_COUNT
    ensures Spaced(ws + [i]) == Spaced(ws) + Space(i)
    decreases |ws|
  {
    hide Space;
    if ws == [] {
      assert ws + [i] == [i] && [i][1..] == [];
      assert Spaced([]) == [];
    } else {
      assert (ws + [i])[1..] == ws[1..] + [i];
      SpacedAppend(ws[1..], i);
    }
  }

  lemma {:induction false} FrontSpace(s: Text, from: nat) returns (i: nat)
    requires from <= SPACE_COUNT && SpaceAtFront(s, from) != 0
    ensures i < SPACE_COUNT && SpaceAtFront(s, from) == |Space(i)| && s[..|Space(i)|] == Space(i)
    decreases SPACE_COUNT - from
  {
    hide Space;
    if HasPrefix(s, Space(from)) {
      i := from;
    } else {
      i := FrontSpace(s, from + 1);
    }
  }

  lemma {:induction false} BackSpace(s: Text, from: nat) returns (i: nat)
    requires from <= SPACE_COUNT && SpaceAtBack(s, from) != 0
    ensures i < SPACE_COUNT && SpaceAtBack(s, from) == |Space(i)| && s[|s| - |Space(i)|..] == Space(i)
    decreases SPACE_COUNT - from
  {
    hide Space;
    if HasSuffix(s, Space(from)) {
      i := from;
    } else {
      i := BackSpace(s, from + 1);
    }
  }

  lemma {:induction false} TrimLeftTakes(s: Text) returns (ws: seq<nat>)
    ensures forall k :: 0 <= k < |ws| ==> ws[k] < SPACE_COUNT
    ensures s == Spaced(ws) + TrimLeft(s) && SpaceAtFront(TrimLeft(s), 0) == 0
    decreases |s|
  {
    hide Space, SpaceAtFront;
    var n := SpaceAtFront(s, 0);
    ws := [];
    if n != 0 {
      var i := FrontSpace(s, 0);
      var rest := TrimLeftTakes(s[n..]);
      ws := [i] + rest;
      assert ws[1..] == rest;
      assert s == s[..n] + s[n..];
    }
  }

  lemma {:induction false} TrimRightTakes(s: Text) returns (ws: seq<nat>)
    ensures forall k :: 0 <= k < |ws| ==> ws[k] < SPACE_COUNT
    ensures s == TrimRight(s) + Spaced(ws) && SpaceAtBack(TrimRight(s), 0) == 0
    decreases |s|
  {
    hide Space, SpaceAtBack, Spaced;
    var n := SpaceAtBack(s, 0);
    ws := [];
    if n != 0 {
      var i := BackSpace(s, 0);
      var rest := TrimRightTakes(s[..|s| - n]);
      SpacedAppend(rest, i);
      ws := rest + [i];
      assert s == s[..|s| - n] + Space(i);
    } else {
      NoSpaces();
    }
  }

  lemma NoSpaces()
    ensures Spaced([]) == []
  {}

  // Trimming takes white space characters away at both ends and leaves none there.
  lemma TrimSpaceTakes(s: Text) returns (before: seq<nat>, after: seq<nat>)
    ensures forall k :: 0 <= k < |before| ==> before[k] < SPACE_COUNT
    ensures forall k :: 0 <= k < |after| ==> after[k] < SPACE_COUNT
    ensures s == Spaced(before) + TrimSpace(s) + Spaced(after) && !SpaceAtAnEnd(TrimSpace(s))
  {
    hide Space, Spaced, TrimLeft, TrimRight, SpaceAtFront, SpaceAtBack, HasPrefix, HasSuffix;
    before := TrimLeftTakes(s);
    var left := TrimLeft(s);
    after := TrimRightTakes(left);
    var t := TrimSpace(s);
    SpaceAtFrontMeaning(left, 0);
    SpaceAtBackMeaning(t, 0);
    forall i: nat | i < SPACE_COUNT ensures !HasPrefix(t, Space(i)) {
      PrefixExtends(t, Spaced(after), Space(i));
    }
  }

  lemma PrefixExtends(s: Text, rest: Text, prefix: Text)
    ensures HasPrefix(s, prefix) ==> HasPrefix(s + rest, prefix)
  {
    if HasPrefix(s, prefix) {
      assert (s + rest)[..|prefix|] == s[..|prefix|];
    }
  }

  // No way to cut a segment out of the path gives an empty one, one that climbs or
  // stays, or one with white space at an end.
  ghost predicate CutsAreNames(path: Text) {
    forall before, segment, after :: Cut(path, before, segment, after) ==>
      segment != [] && segment != [DOT] && segment != [DOT, DOT] && !SpaceAtAnEnd(segment)
  }

  lemma SafePathMeaning(path: Text)
    ensures SafePath(path) <==> 0 < |path| <= 512 && CutsAreNames(path)
  {
    hide Segments, TrimSpace, SpaceAtAnEnd, TwoSlashes, SafeSegment;
    if SafePath(path) {
      forall before, segment, after | Cut(path, before, segment, after)
        ensures segment != [] && segment != [DOT] && segment != [DOT, DOT] && !SpaceAtAnEnd(segment)
      {
        CutIsSegment(path, before, segment, after);
        NameMeaning(segment);
      }
    }
    if path != [] && CutsAreNames(path) {
      forall i | 0 <= i < |Segments(path)| ensures Segments(path)[i] != [] && SafeSegment(Segments(path)[i]) {
        var before, after := SegmentIsCut(path, i);
        NameMeaning(Segments(path)[i]);
      }
      NoEmptyCut(path);
    }
  }

  lemma NameMeaning(segment: Text)
    ensures SafeSegment(segment) <==> segment != [DOT] && segment != [DOT, DOT] && !SpaceAtAnEnd(segment)
  {
    hide TrimSpace, SpaceAtAnEnd;
    TrimSpaceMeaning(segment);
  }

  lemma EmptyCuts(path: Text)
    requires path != []
    ensures path[0] == SLASH ==> Cut(path, [], [], path)
    ensures forall i :: 0 <= i < |path| - 1 && path[i] == SLASH && path[i + 1] == SLASH ==>
      Cut(path, path[..i + 1], [], path[i + 1..])
  {
    assert path == [] + [] + path;
    forall i | 0 <= i < |path| - 1 && path[i] == SLASH && path[i + 1] == SLASH
      ensures Cut(path, path[..i + 1], [], path[i + 1..])
    {
      assert path == path[..i + 1] + [] + path[i + 1..];
    }
  }

  lemma NoEmptyCut(path: Text)
    requires path != [] && CutsAreNames(path)
    ensures path[0] != SLASH && !TwoSlashes(path)
  {
    hide SpaceAtAnEnd, Cut;
    EmptyCuts(path);
  }

  // The same for the checks of a policy's paths and patterns, which let a path end in
  // a slash.
  ghost predicate CutsAreSafe(path: Text) {
    forall before, segment, after :: Cut(path, before, segment, after) ==>
      && segment != [DOT] && segment != [DOT, DOT] && !SpaceAtAnEnd(segment)
      && (segment == [] ==> before != [] && after == [])
  }

  lemma SafeSegmentsMeaning(path: Text)
    ensures SafeSegments(path) <==> path == [] || CutsAreSafe(path)
  {
    hide Segments, TrimSpace, SpaceAtAnEnd, SafeSegment, Cut;
    if path != [] && SafeSegments(path) {
      forall before, segment, after | Cut(path, before, segment, after)
        ensures segment != [DOT] && segment != [DOT, DOT] && !SpaceAtAnEnd(segment)
        ensures segment == [] ==> before != [] && after == []
      {
        CutIsSegment(path, before, segment, after);
        NameMeaning(segment);
        EmptyCut(path, before, segment, after);
      }
    }
    if path != [] && CutsAreSafe(path) {
      forall i | 0 <= i < |Segments(path)| ensures SafeSegment(Segments(path)[i]) {
        var before, after := SegmentIsCut(path, i);
        NameMeaning(Segments(path)[i]);
      }
      EmptyCuts(path);
    }
  }

  lemma CutEnds(path: Text, before: Text, segment: Text, after: Text)
    requires Cut(path, before, segment, after)
    ensures before != [] ==> |before| <= |path| && path[|before| - 1] == SLASH
    ensures segment == [] && after != [] ==> |before| < |path| && path[|before|] == SLASH
  {}

  lemma EmptyCut(path: Text, before: Text, segment: Text, after: Text)
    requires path != [] && Cut(path, before, segment, after) && path[0] != SLASH && !TwoSlashes(path)
    ensures segment == [] ==> before != [] && after == []
  {
    CutEnds(path, before, segment, after);
  }
}
