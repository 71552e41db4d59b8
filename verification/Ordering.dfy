/** Bytewise order on strings, as the database compares TEXT. */
module Ordering {
  import opened Encoding

  predicate Less(a: Text, b: Text)
    decreases |b|
  {
    if b == [] then false
    else if a == [] then true
    else if a[0] != b[0] then a[0] < b[0]
    else Less(a[1..], b[1..])
  }

  predicate AtMost(a: Text, b: Text) { a == b || Less(a, b) }

  lemma {:induction false} LessTransitive(a: Text, b: Text, c: Text)
    requires Less(a, b) && Less(b, c)
    ensures Less(a, c)
    decreases |b|
  {
    if a != [] && a[0] == b[0] && b[0] == c[0] {
      LessTransitive(a[1..], b[1..], c[1..]);
    }
  }

  lemma {:induction false} LessIrreflexive(a: Text)
    ensures !Less(a, a)
    decreases |a|
  {
    if a != [] {
      LessIrreflexive(a[1..]);
    }
  }

  lemma {:induction false} LessTotal(a: Text, b: Text)
    ensures Less(a, b) || a == b || Less(b, a)
    ensures !(Less(a, b) && Less(b, a))
    ensures !Less(a, a)
    decreases |a|
  {
    LessIrreflexive(a);
    if a != [] && b != [] && a[0] == b[0] {
      LessTotal(a[1..], b[1..]);
      assert a == [a[0]] + a[1..] && b == [b[0]] + b[1..];
    }
  }

  predicate IsLeast(names: set<Text>, least: Text) {
    forall n :: n in names ==> AtMost(least, n)
  }

  lemma {:induction false} LeastExists(names: set<Text>)
    requires names != {}
    ensures exists least :: least in names && IsLeast(names, least)
    decreases |names|
  {
    hide Less;
    var n :| n in names;
    var rest := names - {n};
    if rest == {} {
      assert names == {n};
      assert IsLeast(names, n);
    } else {
      LeastExists(rest);
      var m :| m in rest && IsLeast(rest, m);
      LessTotal(n, m);
      if Less(m, n) {
        assert IsLeast(names, m);
      } else {
        forall k | k in names ensures AtMost(n, k) {
          if k != n && k != m {
            assert AtMost(m, k);
            LessTransitive(n, m, k);
          }
        }
        assert IsLeast(names, n);
      }
    }
  }

  lemma AfterLeast(names: set<Text>, least: Text)
    requires least in names && IsLeast(names, least)
    ensures forall n :: n in names - {least} ==> Less(least, n)
  {
    hide Less;
    forall n | n in names - {least} ensures Less(least, n) {
      assert AtMost(least, n);
    }
  }

  predicate StrictlyAscending(names: seq<Text>) {
    forall i, j :: 0 <= i < j < |names| ==> Less(names[i], names[j])
  }

  // The names of a set in the order a query sorts them.
  method SortedNames(names: set<Text>) returns (sorted: seq<Text>)
    ensures StrictlyAscending(sorted) && (set n | n in sorted) == names
  {
    hide Less;
    sorted := [];
    var remaining := names;
    while remaining != {}
      invariant remaining <= names && (set n | n in sorted) == names - remaining
      invariant StrictlyAscending(sorted)
      invariant forall i, n :: 0 <= i < |sorted| && n in remaining ==> Less(sorted[i], n)
      decreases remaining
    {
      LeastExists(remaining);
      var name :| name in remaining && IsLeast(remaining, name);
      AfterLeast(remaining, name);
      assert (set n | n in sorted + [name]) == (set n | n in sorted) + {name};
      sorted := sorted + [name];
      remaining := remaining - {name};
    }
  }
}
