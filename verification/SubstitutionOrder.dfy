/** For which values the order of the replacements can never matter. */
module SubstitutionOrder {
  import opened Encoding
  import opened Paths
  import opened Substitution

  // At how many positions a text occurs.
  function Occurrences(s: Text, w: Text): nat {
    if s == [] then 0 else (if HasPrefix(s, w) then 1 else 0) + Occurrences(s[1..], w)
  }

  function CountRefs(ts: seq<Token>, body: Text): nat {
    if ts == [] then 0 else (if ts[0] == Ref(body) then 1 else 0) + CountRefs(ts[1..], body)
  }

  lemma {:induction false} OccurrencesAppend(s: Text, t: Text, w: Text)
    requires w != []
    ensures Occurrences(s + t, w) >= Occurrences(s, w) + Occurrences(t, w)
    decreases |s|
  {
    if s == [] {
      assert s + t == t;
    } else {
      assert (s + t)[1..] == s[1..] + t;
      assert HasPrefix(s, w) ==> (s + t)[..|w|] == s[..|w|];
      OccurrencesAppend(s[1..], t, w);
    }
  }

  lemma OccursAtFront(w: Text, t: Text)
    requires w != []
    ensures Occurrences(w + t, w) >= 1
  {
    assert (w + t)[..|w|] == w;
  }

  // Occurrences of a reference's text do not overlap: its one dollar sign is its first byte.
  lemma {:induction false} NoOverlap(s: Text, body: Text, k: nat)
    requires ValidBody(body) && HasPrefix(s, Written(body)) && 1 <= k <= |body| + 3
    ensures Occurrences(s[k..], Written(body)) == Occurrences(s[|body| + 3..], Written(body))
    decreases |body| + 3 - k
  {
    var w := Written(body);
    if k < |w| {
      assert s[..|w|][k] == w[k] && w[k] != DOLLAR;
      PrefixHead(s[k..], w);
      assert s[k..][1..] == s[k + 1..];
      NoOverlap(s, body, k + 1);
    }
  }

  lemma {:induction false} ReplaceAllLength(s: Text, body: Text, into: Text)
    requires ValidBody(body)
    ensures |ReplaceAll(s, Written(body), into)| == |s| + Occurrences(s, Written(body)) * (|into| - |body| - 3)
    decreases |s|
  {
    hide HasPrefix, Written;
    if s != [] {
      var w := Written(body);
      var d := |into| - |body| - 3;
      if HasPrefix(s, w) {
        PrefixFits(s, w);
        ReplaceAllLength(s[|w|..], body, into);
        NoOverlap(s, body, 1);
        OneMore(Occurrences(s[|w|..], w), d);
      } else {
        ReplaceAllLength(s[1..], body, into);
      }
    }
  }

  lemma PrefixFits(s: Text, w: Text)
    requires HasPrefix(s, w)
    ensures |w| <= |s|
  {}

  lemma OneMore(n: nat, d: int)
    ensures (1 + n) * d == d + n * d
  {}

  lemma ReplaceAllGrows(s: Text, body: Text, into: Text)
    requires ValidBody(body) && |into| >= |body| + 3
    ensures |ReplaceAll(s, Written(body), into)| >= |s|
    ensures |into| == |body| + 4 ==> |ReplaceAll(s, Written(body), into)| == |s| + Occurrences(s, Written(body))
  {
    hide ReplaceAll, Occurrences, Written, ValidBody;
    ReplaceAllLength(s, body, into);
    Product(Occurrences(s, Written(body)), |into| - |body| - 3);
  }

  lemma Product(n: nat, d: nat)
    ensures n * d >= 0 && n * 1 == n
  {}

  // ---- plaintexts that tell the orders apart ----

  // The first reference reveals the text of the second, the second its own text
  // and one byte more, every other its own text.
  function Telltale(a: Text, b: Text): Plaintexts {
    body => if body == b then Written(b) + [0] else if body == a then Written(b) + a else Written(body)
  }

  lemma {:induction false} NeverShorter(s: Text, bodies: seq<Text>, a: Text, b: Text)
    requires forall i :: 0 <= i < |bodies| ==> ValidBody(bodies[i])
    ensures |Sequential(s, bodies, Telltale(a, b))| >= |s|
    decreases |bodies|
  {
    hide ReplaceAll, Occurrences, Written, ValidBody;
    if bodies != [] {
      var into := Telltale(a, b)(bodies[0]);
      ReplaceAllGrows(s, bodies[0], into);
      NeverShorter(ReplaceAll(s, Written(bodies[0]), into), bodies[1..], a, b);
    }
  }

  // After the first reference has been replaced, the text of the second occurs for
  // each of both; replacing all at once lengthens only the second's own.
  lemma {:induction false} FirstStep(ts: seq<Token>, a: Text, b: Text)
    requires ValidBody(a) && ValidBody(b)
    ensures var s, others := Flatten(Sub(ts, a, Telltale(a, b)(a))), if a == b then 0 else CountRefs(ts, b);
      && Occurrences(s, Written(b)) >= CountRefs(ts, a) + others
      && |Simultaneous(ts, Telltale(a, b))| == |s| + others
    decreases |ts|
  {
    hide Written, Occurrences;
    if ts != [] {
      var f := Telltale(a, b);
      var rest := Sub(ts[1..], a, f(a));
      FirstStep(ts[1..], a, b);
      if ts[0] == Ref(a) {
        FlattenAppend(Plains(f(a)), rest);
        FlattenPlains(f(a));
        OccurrencesAppend(f(a), Flatten(rest), Written(b));
        OccursAtFront(Written(b), if a == b then [0] else a);
      } else {
        var head := FlatToken(ts[0]);
        assert Flatten([ts[0]] + rest) == head + Flatten(rest);
        OccurrencesAppend(head, Flatten(rest), Written(b));
        if ts[0] == Ref(b) {
          OccursAtFront(Written(b), []);
          assert Written(b) + [] == head;
        }
      }
    }
  }

  function FlatToken(t: Token): Text { match t case Plain(b) => [b] case Ref(body) => Written(body) }

  lemma {:induction false} FirstRefCounts(ts: seq<Token>)
    requires Refs(ts) != []
    ensures CountRefs(ts, Refs(ts)[0]) >= 1
    decreases |ts|
  {
    if !ts[0].Ref? {
      FirstRefCounts(ts[1..]);
    }
  }

  lemma TellsApart(s: Text)
    requires |Refs(Tokens(s))| >= 2
    ensures var f := Telltale(Refs(Tokens(s))[0], Refs(Tokens(s))[1]);
      |Sequential(s, Refs(Tokens(s)), f)| > |Simultaneous(Tokens(s), f)|
  {
    hide ReplaceAll, Occurrences, Tokens, Written, ValidBody, Simultaneous, Refs, CountRefs, Flatten, Sub;
    var ts := Tokens(s);
    var bodies := Refs(ts);
    var a, b := bodies[0], bodies[1];
    var f := Telltale(a, b);
    TokensValid(s);
    RefsValid(ts);
    ReplaceIsSub(s, a, f(a));
    var s1 := ReplaceAll(s, Written(a), f(a));
    FirstStep(ts, a, b);
    FirstRefCounts(ts);
    ReplaceAllGrows(s1, b, f(b));
    SequentialTwice(s, bodies, f);
    NeverShorter(ReplaceAll(s1, Written(b), f(b)), bodies[2..], a, b);
  }

  lemma SequentialTwice(s: Text, bodies: seq<Text>, f: Plaintexts)
    requires |bodies| >= 2
    ensures var s1 := ReplaceAll(s, Written(bodies[0]), f(bodies[0]));
      Sequential(s, bodies, f) == Sequential(ReplaceAll(s1, Written(bodies[1]), f(bodies[1])), bodies[2..], f)
  {
    hide ReplaceAll, Written;
    assert bodies[1..][0] == bodies[1] && bodies[1..][1..] == bodies[2..];
  }

  lemma TokensValid(s: Text)
    ensures forall i :: 0 <= i < |Tokens(s)| && Tokens(s)[i].Ref? ==> ValidBody(Tokens(s)[i].body)
  {}

  ghost predicate OrderNeverMatters(s: Text) {
    forall plaintext: Plaintexts :: Sequential(s, Refs(Tokens(s)), plaintext) == Simultaneous(Tokens(s), plaintext)
  }

  // Whatever the references reveal, replacing them one after another is replacing
  // them at once exactly for the values with no more than one match.
  lemma OrderNeverMattersExactly(s: Text)
    ensures OrderNeverMatters(s) <==> |Refs(Tokens(s))| <= 1
  {
    hide ReplaceAll, Tokens;
    if |Refs(Tokens(s))| >= 2 {
      TellsApart(s);
    } else {
      forall plaintext: Plaintexts
        ensures Sequential(s, Refs(Tokens(s)), plaintext) == Simultaneous(Tokens(s), plaintext)
      {
        if |Refs(Tokens(s))| == 1 {
          SingleMatchIsSimultaneous(s, plaintext);
        } else {
          NoRefsLeft(Tokens(s), plaintext);
          FlattenTokens(s);
        }
      }
    }
  }
}
