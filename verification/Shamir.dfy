module Shamir {
  import opened Wrappers
  import opened Field

  // ---- polynomials, lowest coefficient first ----

  function Eval(c: seq<Byte>, x: Byte): Byte {
    if c == [] then 0 else Add(Mul(Eval(c[1..], x), x), c[0])
  }

  lemma EvalAtZero(c: seq<Byte>)
    requires c != []
    ensures Eval(c, 0) == c[0]
  {
    hide Add, Mul;
    MulZero(Eval(c[1..], 0));
    AddZero(c[0]);
  }

  // The coefficients of (c(x) - c(r)) / (x - r).
  function Quotient(c: seq<Byte>, r: Byte): (q: seq<Byte>)
    ensures |q| == if c == [] then 0 else |c| - 1
  {
    if |c| <= 1 then [] else [Eval(c[1..], r)] + Quotient(c[1..], r)
  }

  // c(x) = (x - r) * q(x) + c(r)
  lemma {:induction false} SyntheticDivision(c: seq<Byte>, r: Byte, x: Byte)
    ensures Eval(c, x) == Add(Mul(Eval(Quotient(c, r), x), Add(x, r)), Eval(c, r))
    decreases |c|
  {
    hide Add, Mul;
    if |c| <= 1 {
      MulZero(Add(x, r));
      MulZero(x);
      MulZero(r);
      AddZero(Eval(c, r));
      assert |c| == 1 ==> c[1..] == [];
    } else {
      var t := c[1..];
      var tr, q, d := Eval(t, r), Eval(Quotient(t, r), x), Add(x, r);
      assert Quotient(c, r)[1..] == Quotient(t, r);
      SyntheticDivision(t, r, x);
      // c(x) = ((q d + tr) x) + c0
      MulDistributes(Mul(q, d), tr, x);
      // (q x + tr) d = (q x) d + tr d, and (q x) d = (q d) x
      MulDistributes(Mul(q, x), tr, d);
      MulAssoc(q, x, d);
      MulAssoc(q, d, x);
      MulComm(x, d);
      // tr d = tr x + tr r
      MulDistributes(tr, x, r);
      var a, b, e := Mul(Mul(q, d), x), Mul(tr, x), Mul(tr, r);
      AddAssoc(Add(a, Add(b, e)), e, c[0]);
      AddAssoc(a, Add(b, e), e);
      AddCancel(b, e);
    }
  }

  predicate AllZero(c: seq<Byte>) { forall i :: 0 <= i < |c| ==> c[i] == 0 }

  predicate Distinct(xs: seq<Byte>) { forall i, j :: 0 <= i < j < |xs| ==> xs[i] != xs[j] }

  lemma {:induction false} ZeroQuotient(c: seq<Byte>, r: Byte)
    requires AllZero(Quotient(c, r)) && Eval(c, r) == 0
    ensures AllZero(c)
    decreases |c|
  {
    hide Add, Mul;
    if c != [] {
      var t := c[1..];
      MulZero(r);
      AddZero(c[0]);
      if |c| > 1 {
        assert Quotient(c, r)[0] == Eval(t, r);
        assert Quotient(c, r)[1..] == Quotient(t, r);
        assert Eval(t, r) == 0;
        ZeroQuotient(t, r);
      }
      assert c == [c[0]] + t;
    }
  }

  // A polynomial with at least as many distinct roots as coefficients is zero.
  lemma {:induction false} TooManyRoots(c: seq<Byte>, xs: seq<Byte>)
    requires Distinct(xs) && |c| <= |xs|
    requires forall i :: 0 <= i < |xs| ==> Eval(c, xs[i]) == 0
    ensures AllZero(c)
    decreases |c|
  {
    hide Add, Mul;
    if c != [] {
      var r, rest := xs[0], xs[1..];
      var q := Quotient(c, r);
      forall i | 0 <= i < |rest| ensures Eval(q, rest[i]) == 0 {
        var x := xs[i + 1];
        assert rest[i] == x && x != r;
        SyntheticDivision(c, r, x);
        AddZero(Mul(Eval(q, x), Add(x, r)));
        AddCancel(x, r);
        MulZero(Add(x, r));
        MulCancel(Eval(q, x), 0, Add(x, r));
      }
      TooManyRoots(q, rest);
      ZeroQuotient(c, r);
    }
  }

  function Sum(c: seq<Byte>, d: seq<Byte>): (s: seq<Byte>)
    requires |c| == |d|
    ensures |s| == |c|
  {
    seq(|c|, i requires 0 <= i < |c| => Add(c[i], d[i]))
  }

  lemma {:induction false} EvalSum(c: seq<Byte>, d: seq<Byte>, x: Byte)
    requires |c| == |d|
    ensures Eval(Sum(c, d), x) == Add(Eval(c, x), Eval(d, x))
    decreases |c|
  {
    hide Add, Mul;
    if c == [] {
      AddZero(0);
    } else {
      assert Sum(c, d)[1..] == Sum(c[1..], d[1..]);
      EvalSum(c[1..], d[1..], x);
      MulDistributes(Eval(c[1..], x), Eval(d[1..], x), x);
      Interchange(Mul(Eval(c[1..], x), x), Mul(Eval(d[1..], x), x), c[0], d[0]);
    }
  }

  // Two polynomials of equal length agreeing at that many points are equal.
  lemma InterpolationUnique(c: seq<Byte>, d: seq<Byte>, xs: seq<Byte>)
    requires |c| == |d| <= |xs| && Distinct(xs)
    requires forall i :: 0 <= i < |xs| ==> Eval(c, xs[i]) == Eval(d, xs[i])
    ensures c == d
  {
    hide Add, Mul;
    var s := Sum(c, d);
    forall i | 0 <= i < |xs| ensures Eval(s, xs[i]) == 0 {
      EvalSum(c, d, xs[i]);
      AddZero(Eval(c, xs[i]));
    }
    TooManyRoots(s, xs);
    forall i | 0 <= i < |c| ensures c[i] == d[i] {
      assert s[i] == Add(c[i], d[i]);
      AddCancel(c[i], d[i]);
    }
  }

  // The coefficients of (x - r) * q(x).
  function TimesLinear(q: seq<Byte>, r: Byte): (c: seq<Byte>)
    ensures |c| == |q| + 1
  {
    if q == [] then [0]
    else
      var t := TimesLinear(q[1..], r);
      [Mul(q[0], r)] + t[0 := Add(t[0], q[0])]
  }

  lemma EvalBump(c: seq<Byte>, k: Byte, x: Byte)
    requires c != []
    ensures Eval(c[0 := Add(c[0], k)], x) == Add(Eval(c, x), k)
  {
    hide Add, Mul;
    assert c[0 := Add(c[0], k)][1..] == c[1..];
    AddAssoc(Mul(Eval(c[1..], x), x), c[0], k);
  }

  lemma {:induction false} EvalTimesLinear(q: seq<Byte>, r: Byte, x: Byte)
    ensures Eval(TimesLinear(q, r), x) == Mul(Eval(q, x), Add(x, r))
    decreases |q|
  {
    hide Add, Mul;
    if q == [] {
      assert Eval([0], x) == Add(Mul(Eval([], x), x), 0);
      MulZero(x);
      MulZero(Add(x, r));
      AddZero(0);
    } else {
      var t, e := TimesLinear(q[1..], r), Eval(q[1..], x);
      var d := Add(x, r);
      var c := TimesLinear(q, r);
      assert c[1..] == t[0 := Add(t[0], q[0])];
      EvalTimesLinear(q[1..], r, x);
      EvalBump(t, q[0], x);
      // c(x) = (e d + q0) x + q0 r
      MulDistributes(Mul(e, d), q[0], x);
      AddAssoc(Mul(Mul(e, d), x), Mul(q[0], x), Mul(q[0], r));
      MulDistributes(q[0], x, r);
      // (e x + q0) d
      MulDistributes(Mul(e, x), q[0], d);
      MulAssoc(e, x, d);
      MulAssoc(e, d, x);
      MulComm(x, d);
    }
  }

  // The one polynomial of |xs| coefficients through the given points.
  function Through(xs: seq<Byte>, ys: seq<Byte>): (c: seq<Byte>)
    requires |xs| == |ys|
    ensures |c| == |xs|
    decreases |xs|
  {
    if xs == [] then []
    else
      var slopes := seq(|xs| - 1, i requires 0 <= i < |xs| - 1 => Div(Add(ys[i + 1], ys[0]), Add(xs[i + 1], xs[0])));
      var c := TimesLinear(Through(xs[1..], slopes), xs[0]);
      c[0 := Add(c[0], ys[0])]
  }

  lemma {:induction false} ThroughPoints(xs: seq<Byte>, ys: seq<Byte>, i: nat)
    requires |xs| == |ys| && Distinct(xs) && i < |xs|
    ensures Eval(Through(xs, ys), xs[i]) == ys[i]
    decreases |xs|
  {
    hide Add, Mul, Inverse;
    var slopes := seq(|xs| - 1, i requires 0 <= i < |xs| - 1 => Div(Add(ys[i + 1], ys[0]), Add(xs[i + 1], xs[0])));
    var q := Through(xs[1..], slopes);
    var c := TimesLinear(q, xs[0]);
    EvalBump(c, ys[0], xs[i]);
    EvalTimesLinear(q, xs[0], xs[i]);
    if i == 0 {
      AddZero(xs[0]);
      MulZero(Eval(q, xs[0]));
      AddZero(ys[0]);
    } else {
      ThroughPoints(xs[1..], slopes, i - 1);
      assert Eval(q, xs[i]) == Div(Add(ys[i], ys[0]), Add(xs[i], xs[0]));
      AddCancel(xs[i], xs[0]);
      DivMul(Add(ys[i], ys[0]), Add(xs[i], xs[0]));
      AddCancel(ys[i], ys[0]);
    }
  }

  lemma DivMul(a: Byte, b: Byte)
    requires b != 0
    ensures Mul(Div(a, b), b) == a
  {
    hide Mul, Inverse;
    MulAssoc(a, Inverse(b), b);
    MulComm(Inverse(b), b);
    InverseLaw(b);
    MulComm(a, 1);
    MulOne(a);
  }

  // ---- Lagrange interpolation at zero ----

  function Factor(a: Byte, b: Byte): Byte { Div(b, Add(a, b)) }

  function Basis(xs: seq<Byte>, i: nat, k: nat): Byte
    requires i < |xs| && k <= |xs|
    decreases k
  {
    if k == 0 then 1
    else if k - 1 == i then Basis(xs, i, k - 1)
    else Mul(Basis(xs, i, k - 1), Factor(xs[i], xs[k - 1]))
  }

  function Weighted(xs: seq<Byte>, ys: seq<Byte>, k: nat): Byte
    requires |xs| == |ys| && k <= |xs|
    decreases k
  {
    if k == 0 then 0
    else Add(Weighted(xs, ys, k - 1), Mul(ys[k - 1], Basis(xs, k - 1, |xs|)))
  }

  function Interpolate(xs: seq<Byte>, ys: seq<Byte>): Byte
    requires |xs| == |ys|
  {
    Weighted(xs, ys, |xs|)
  }

  lemma {:induction false} WeightedSum(xs: seq<Byte>, u: seq<Byte>, v: seq<Byte>, k: nat)
    requires |xs| == |u| == |v| && k <= |xs|
    ensures Weighted(xs, Sum(u, v), k) == Add(Weighted(xs, u, k), Weighted(xs, v, k))
    decreases k
  {
    hide Add, Mul, Basis;
    if k == 0 {
      AddZero(0);
    } else {
      var b := Basis(xs, k - 1, |xs|);
      WeightedSum(xs, u, v, k - 1);
      MulDistributes(u[k - 1], v[k - 1], b);
      Interchange(Weighted(xs, u, k - 1), Weighted(xs, v, k - 1), Mul(u[k - 1], b), Mul(v[k - 1], b));
    }
  }

  function Constant(n: nat, m: Byte): (s: seq<Byte>)
    ensures |s| == n
  {
    seq(n, i => m)
  }

  lemma {:induction false} WeightedConstant(xs: seq<Byte>, m: Byte, k: nat)
    requires k <= |xs|
    ensures Weighted(xs, Constant(|xs|, m), k) == Mul(m, Weighted(xs, Constant(|xs|, 1), k))
    decreases k
  {
    hide Add, Mul, Basis;
    if k == 0 {
      MulZero(m);
    } else {
      var b := Basis(xs, k - 1, |xs|);
      WeightedConstant(xs, m, k - 1);
      MulOne(b);
      MulDistributes(m, Weighted(xs, Constant(|xs|, 1), k - 1), b);
    }
  }

  function Without<T>(s: seq<T>, m: nat): (t: seq<T>)
    requires m < |s|
    ensures |t| == |s| - 1
  {
    s[..m] + s[m + 1..]
  }

  lemma DistinctWithout(xs: seq<Byte>, m: nat)
    requires Distinct(xs) && m < |xs|
    ensures Distinct(Without(xs, m))
  {
    var t := Without(xs, m);
    forall i, j | 0 <= i < j < |t| ensures t[i] != t[j] {
      assert t[i] == xs[if i < m then i else i + 1];
      assert t[j] == xs[if j < m then j else j + 1];
    }
  }

  // Leaving point m out removes one factor from every other basis value.
  lemma {:induction false} BasisWithout(xs: seq<Byte>, i: nat, m: nat, k: nat)
    requires i < |xs| && m < |xs| && i != m && k <= |xs|
    ensures var i' := if i < m then i else i - 1;
      if k <= m then Basis(xs, i, k) == Basis(Without(xs, m), i', k)
      else Basis(xs, i, k) == Mul(Basis(Without(xs, m), i', k - 1), Factor(xs[i], xs[m]))
    decreases k
  {
    hide Mul, Factor;
    var t := Without(xs, m);
    var i' := if i < m then i else i - 1;
    assert t[i'] == xs[i];
    if k != 0 {
      BasisWithout(xs, i, m, k - 1);
      if k - 1 < m {
        assert t[k - 1] == xs[k - 1];
      } else if k - 1 > m {
        assert t[k - 2] == xs[k - 1];
        if k - 1 != i {
          var b, f, g := Basis(t, i', k - 2), Factor(xs[i], xs[m]), Factor(xs[i], xs[k - 1]);
          MulAssoc(b, f, g);
          MulComm(f, g);
          MulAssoc(b, g, f);
        }
      }
    }
  }

  // Weights that vanish at point m reduce the sum to the other points.
  function Vanishing(xs: seq<Byte>, w: seq<Byte>, m: nat): (v: seq<Byte>)
    requires |xs| == |w| && m < |xs|
    ensures |v| == |xs|
  {
    seq(|xs|, i requires 0 <= i < |xs| => Mul(w[i], Add(xs[i], xs[m])))
  }

  lemma TermWithout(xs: seq<Byte>, w: seq<Byte>, m: nat, i: nat)
    requires |xs| == |w| && Distinct(xs) && m < |xs| && i < |xs| && i != m
    ensures var i' := if i < m then i else i - 1;
      Mul(Vanishing(xs, w, m)[i], Basis(xs, i, |xs|)) == Mul(xs[m], Mul(w[i], Basis(Without(xs, m), i', |xs| - 1)))
  {
    hide Mul, Add, Basis, Inverse;
    var i' := if i < m then i else i - 1;
    var b, d, f, x := Basis(Without(xs, m), i', |xs| - 1), Add(xs[i], xs[m]), Factor(xs[i], xs[m]), xs[m];
    BasisWithout(xs, i, m, |xs|);
    AddCancel(xs[i], xs[m]);
    DivMul(x, d);
    assert Mul(f, d) == x;
    MulComm(b, f);
    MulAssoc(w[i], d, Mul(f, b));
    MulAssoc(d, f, b);
    MulComm(d, f);
    MulAssoc(w[i], x, b);
    MulComm(w[i], x);
    MulAssoc(x, w[i], b);
  }

  lemma {:induction false} WeightedWithout(xs: seq<Byte>, w: seq<Byte>, m: nat, k: nat)
    requires |xs| == |w| && Distinct(xs) && m < |xs| && k <= |xs|
    ensures Weighted(xs, Vanishing(xs, w, m), k)
         == Mul(xs[m], Weighted(Without(xs, m), Without(w, m), if k <= m then k else k - 1))
    decreases k
  {
    hide Mul, Add, Basis;
    var x, t, u := xs[m], Without(xs, m), Without(w, m);
    if k == 0 {
      MulZero(x);
    } else {
      WeightedWithout(xs, w, m, k - 1);
      if k - 1 == m {
        AddZero(x);
        MulZero(w[m]);
        MulZero(Basis(xs, m, |xs|));
        AddZero(Weighted(xs, Vanishing(xs, w, m), k - 1));
      } else {
        var k' := if k - 1 < m then k - 1 else k - 2;
        assert u[k'] == w[k - 1];
        TermWithout(xs, w, m, k - 1);
        MulDistributes(x, Weighted(t, u, k'), Mul(u[k'], Basis(t, k', |t|)));
      }
    }
  }

  // The basis values at zero sum to one.
  lemma {:induction false} PartitionOfUnity(xs: seq<Byte>)
    requires Distinct(xs) && xs != []
    ensures Weighted(xs, Constant(|xs|, 1), |xs|) == 1
    decreases |xs|
  {
    hide Mul, Add;
    var n := |xs|;
    var ones := Constant(n, 1);
    if n == 1 {
      MulOne(1);
      AddZero(1);
      assert Basis(xs, 0, 1) == 1;
      assert Weighted(xs, ones, 1) == Add(Weighted(xs, ones, 0), Mul(1, Basis(xs, 0, 1)));
    } else {
      var d := Add(xs[0], xs[1]);
      forall m: nat | m < 2 ensures Weighted(xs, Vanishing(xs, ones, m), n) == xs[m] {
        hide Weighted;
        WeightedWithout(xs, ones, m, n);
        assert Without(ones, m) == Constant(n - 1, 1);
        DistinctWithout(xs, m);
        PartitionOfUnity(Without(xs, m));
        MulComm(xs[m], 1);
        MulOne(xs[m]);
      }
      hide Weighted;
      WeightedSum(xs, Vanishing(xs, ones, 0), Vanishing(xs, ones, 1), n);
      forall i | 0 <= i < n ensures Sum(Vanishing(xs, ones, 0), Vanishing(xs, ones, 1))[i] == d {
        MulOne(Add(xs[i], xs[0]));
        MulOne(Add(xs[i], xs[1]));
        Interchange(xs[i], xs[0], xs[i], xs[1]);
        AddZero(xs[i]);
        AddZero(d);
      }
      assert Sum(Vanishing(xs, ones, 0), Vanishing(xs, ones, 1)) == Constant(n, d);
      WeightedConstant(xs, d, n);
      AddCancel(xs[0], xs[1]);
      MulComm(d, Weighted(xs, ones, n));
      MulOne(d);
      MulCancel(Weighted(xs, ones, n), 1, d);
    }
  }

  function Values(c: seq<Byte>, xs: seq<Byte>): (ys: seq<Byte>)
    ensures |ys| == |xs|
  {
    seq(|xs|, i requires 0 <= i < |xs| => Eval(c, xs[i]))
  }

  lemma EvalConstant(c: seq<Byte>, x: Byte)
    requires |c| <= 1
    ensures Eval(c, x) == Eval(c, 0)
  {
    hide Add, Mul;
    if c != [] {
      MulZero(x);
      MulZero(0);
      assert Eval(c[1..], x) == 0 && Eval(c[1..], 0) == 0;
    }
  }

  // Interpolating the values of a polynomial with no more coefficients than
  // points gives its value at zero.
  lemma {:induction false} InterpolateValues(c: seq<Byte>, xs: seq<Byte>)
    requires Distinct(xs) && xs != [] && |c| <= |xs|
    ensures Interpolate(xs, Values(c, xs)) == Eval(c, 0)
    decreases |c|
  {
    hide Mul, Add, Weighted;
    var n := |xs|;
    PartitionOfUnity(xs);
    if |c| <= 1 {
      var k := Eval(c, 0);
      forall i | 0 <= i < n ensures Values(c, xs)[i] == k {
        EvalConstant(c, xs[i]);
      }
      assert Values(c, xs) == Constant(n, k);
      WeightedConstant(xs, k, n);
      MulComm(k, 1);
      MulOne(k);
    } else {
      var r := xs[0];
      var q, at := Quotient(c, r), Eval(c, r);
      var t := Without(xs, 0);
      DistinctWithout(xs, 0);
      InterpolateValues(q, t);
      var v := Vanishing(xs, Values(q, xs), 0);
      forall i | 0 <= i < n ensures Values(c, xs)[i] == Sum(v, Constant(n, at))[i] {
        SyntheticDivision(c, r, xs[i]);
      }
      assert Values(c, xs) == Sum(v, Constant(n, at));
      WeightedSum(xs, v, Constant(n, at), n);
      WeightedConstant(xs, at, n);
      MulComm(at, 1);
      MulOne(at);
      WeightedWithout(xs, Values(q, xs), 0, n);
      assert Without(Values(q, xs), 0) == Values(q, t);
      SyntheticDivision(c, r, 0);
      MulComm(r, Eval(q, 0));
      AddComm(0, r);
      AddZero(r);
    }
  }

  // ---- Split and Combine ----

  const MIN_SHARES := 2
  const MAX_SHARES := 255

  datatype ShamirError = EmptySecret | ShareCount | Threshold | TooFewShares | ShareLength | MalformedShare | DuplicateShare

  // The random coefficients: random(position, k) is the coefficient of x^k.
  type Randomness = (nat, nat) -> Byte

  function Coefficients(secret: seq<Byte>, random: Randomness, threshold: nat, position: nat): (c: seq<Byte>)
    requires position < |secret| && threshold > 0
    ensures |c| == threshold
  {
    seq(threshold, k requires 0 <= k < threshold => if k == 0 then secret[position] else random(position, k))
  }

  // The byte index + 1, counted up from one; no share number wraps.
  function Point(index: nat): Byte
    requires index < MAX_SHARES
  {
    if index == 0 then 1 else Point(index - 1) + 1
  }

  lemma ByteSuccessor(x: bv8)
    requires x != 255
    ensures (x + 1) as int == x as int + 1
  {}

  lemma {:induction false} PointValue(i: nat)
    requires i < MAX_SHARES
    ensures Point(i) as int == i + 1
    decreases i
  {
    if i > 0 {
      PointValue(i - 1);
      ByteSuccessor(Point(i - 1));
    }
  }

  lemma PointInjective(i: nat, j: nat)
    requires i < MAX_SHARES && j < MAX_SHARES
    ensures Point(i) != 0
    ensures Point(i) == Point(j) ==> i == j
  {
    hide Point;
    PointValue(i);
    PointValue(j);
  }

  // What share number index carries: one value a position, then its point.
  function Share(secret: seq<Byte>, random: Randomness, threshold: nat, index: nat): (share: seq<Byte>)
    requires threshold > 0 && index < MAX_SHARES
    ensures |share| == |secret| + 1
  {
    seq(|secret|, p requires 0 <= p < |secret| => Eval(Coefficients(secret, random, threshold, p), Point(index)))
    + [Point(index)]
  }

  function Xs(shares: seq<seq<Byte>>): (xs: seq<Byte>)
    requires forall i :: 0 <= i < |shares| ==> shares[i] != []
    ensures |xs| == |shares|
  {
    seq(|shares|, i requires 0 <= i < |shares| => shares[i][|shares[i]| - 1])
  }

  function Column(shares: seq<seq<Byte>>, p: nat): (ys: seq<Byte>)
    requires forall i :: 0 <= i < |shares| ==> p < |shares[i]|
    ensures |ys| == |shares|
  {
    seq(|shares|, i requires 0 <= i < |shares| => shares[i][p])
  }

  // What is wrong with share i, given the shares before it.
  predicate Faulty(shares: seq<seq<Byte>>, i: nat, error: ShamirError)
    requires i < |shares| && |shares[0]| >= 2
    requires forall j :: 0 <= j < i ==> |shares[j]| == |shares[0]|
  {
    var width := |shares[0]|;
    match error
    case ShareLength => |shares[i]| != width
    case MalformedShare => |shares[i]| == width && shares[i][width - 1] == 0
    case DuplicateShare =>
      |shares[i]| == width && shares[i][width - 1] != 0
      && exists j :: 0 <= j < i && shares[j][width - 1] == shares[i][width - 1]
    case _ => false
  }

  predicate SameWidth(shares: seq<seq<Byte>>, k: nat)
    requires k <= |shares|
  {
    forall i :: 0 <= i < k ==> |shares[i]| == |shares[0]|
  }

  predicate Usable(shares: seq<seq<Byte>>, k: nat)
    requires k <= |shares| && shares != [] && |shares[0]| >= 2
  {
    var width := |shares[0]|;
    && SameWidth(shares, k)
    && (forall i :: 0 <= i < k ==> shares[i][width - 1] != 0)
    && (forall i, j :: 0 <= i < j < k ==> shares[i][width - 1] != shares[j][width - 1])
  }

  predicate WellFormed(shares: seq<seq<Byte>>) {
    |shares| >= MIN_SHARES && |shares[0]| >= 2 && Usable(shares, |shares|)
  }

  function Recovered(shares: seq<seq<Byte>>): (secret: seq<Byte>)
    requires WellFormed(shares)
    ensures |secret| == |shares[0]| - 1
  {
    seq(|shares[0]| - 1, p requires 0 <= p < |shares[0]| - 1 => Interpolate(Xs(shares), Column(shares, p)))
  }

  method Evaluate(coefficients: array<Byte>, x: Byte) returns (result: Byte)
    requires coefficients.Length > 0
    ensures result == Eval(coefficients[..], x)
  {
    hide Add, Mul;
    ghost var c := coefficients[..];
    result := coefficients[coefficients.Length - 1];
    var index := coefficients.Length - 2;
    assert c[index + 1..] == [result];
    assert Eval([result], x) == Add(Mul(Eval([], x), x), result);
    MulZero(x);
    AddZero(result);
    while index >= 0
      invariant -1 <= index <= |c| - 2
      invariant result == Eval(c[index + 1..], x)
    {
      assert c[index..][1..] == c[index + 1..];
      var product := FieldMul(result, x);
      AddIsXor(product, coefficients[index]);
      result := product ^ coefficients[index];
      index := index - 1;
    }
    assert c[0..] == c;
  }

  lemma AddIsXor(a: Byte, b: Byte)
    ensures a ^ b == Add(a, b)
  {}

  method InterpolateAtZero(xs: seq<Byte>, ys: array<Byte>) returns (result: Byte)
    requires |xs| == ys.Length
    ensures result == Interpolate(xs, ys[..])
  {
    hide Add, Mul, Inverse;
    result := 0;
    for i := 0 to |xs|
      invariant result == Weighted(xs, ys[..], i)
    {
      var basis: Byte := 1;
      for j := 0 to |xs|
        invariant basis == Basis(xs, i, j)
      {
        if i == j {
          continue;
        }
        AddIsXor(xs[i], xs[j]);
        var factor := FieldDiv(xs[j], xs[i] ^ xs[j]);
        basis := FieldMul(basis, factor);
      }
      var term := FieldMul(ys[i], basis);
      AddIsXor(result, term);
      result := result ^ term;
    }
  }

  // Every position before the given one is filled in, and the given one for
  // the first shares only.
  predicate Filled(split: seq<seq<Byte>>, secret: seq<Byte>, random: Randomness,
                   shares: nat, threshold: nat, position: nat, index: nat)
    requires threshold > 0 && shares <= MAX_SHARES
  {
    && |split| == shares
    && (forall i :: 0 <= i < shares ==> |split[i]| == |secret| + 1 && split[i][|secret|] == Point(i))
    && (forall i, p :: 0 <= i < shares && 0 <= p < |secret| && (p < position || (p == position && i < index)) ==>
      split[i][p] == Eval(Coefficients(secret, random, threshold, p), Point(i)))
  }

  method Split(secret: seq<Byte>, shares: int, threshold: int, random: Randomness) returns (r: Result<seq<seq<Byte>>, ShamirError>)
    ensures r == Failure(EmptySecret) <==> secret == []
    ensures r == Failure(ShareCount) <==> secret != [] && !(MIN_SHARES <= shares <= MAX_SHARES)
    ensures r == Failure(Threshold)
      <==> secret != [] && MIN_SHARES <= shares <= MAX_SHARES && !(MIN_SHARES <= threshold <= shares)
    ensures r.Success? <==> secret != [] && MIN_SHARES <= threshold <= shares <= MAX_SHARES
    ensures r.Success? ==>
      |r.value| == shares && forall i :: 0 <= i < shares ==> r.value[i] == Share(secret, random, threshold, i)
  {
    hide Add, Mul, Eval, Point;
    if secret == [] {
      return Failure(EmptySecret);
    }
    if shares < MIN_SHARES || shares > MAX_SHARES {
      return Failure(ShareCount);
    }
    if threshold < MIN_SHARES || threshold > shares {
      return Failure(Threshold);
    }
    var width := |secret|;
    var split: seq<seq<Byte>> := seq(shares, i requires 0 <= i < shares => seq(width, p => 0) + [Point(i)]);
    var coefficients := new Byte[threshold];
    for position := 0 to width
      invariant Filled(split, secret, random, shares, threshold, position, 0)
    {
      for k := 1 to threshold
        invariant forall l :: 1 <= l < k ==> coefficients[l] == random(position, l)
      {
        coefficients[k] := random(position, k);
      }
      coefficients[0] := secret[position];
      assert coefficients[..] == Coefficients(secret, random, threshold, position);
      for index := 0 to shares
        invariant coefficients[..] == Coefficients(secret, random, threshold, position)
        invariant Filled(split, secret, random, shares, threshold, position, index)
      {
        var value := Evaluate(coefficients, Point(index));
        var row := split[index][position := value];
        split := split[index := row];
      }
    }
    forall i | 0 <= i < shares ensures split[i] == Share(secret, random, threshold, i) {
    }
    return Success(split);
  }

  // The first loop of Combine: checks every share and collects the points.
  method Points(shares: seq<seq<Byte>>) returns (r: Result<seq<Byte>, ShamirError>)
    requires |shares| >= MIN_SHARES && |shares[0]| >= 2
    ensures r.Success? <==> WellFormed(shares)
    ensures r.Success? ==> r.value == Xs(shares)
    ensures r.Failure? ==> exists i :: 0 <= i < |shares| && Usable(shares, i) && Faulty(shares, i, r.error)
  {
    var width := |shares[0]|;
    var xs: seq<Byte> := [];
    var seen: set<Byte> := {};
    for index := 0 to |shares|
      invariant Usable(shares, index)
      invariant |xs| == index && forall j :: 0 <= j < index ==> xs[j] == shares[j][width - 1]
      invariant forall x :: x in seen <==> x in xs
    {
      var share := shares[index];
      if |share| != width {
        assert Faulty(shares, index, ShareLength);
        return Failure(ShareLength);
      }
      var x := share[width - 1];
      if x == 0 {
        assert Faulty(shares, index, MalformedShare);
        return Failure(MalformedShare);
      }
      if x in seen {
        assert Faulty(shares, index, DuplicateShare);
        return Failure(DuplicateShare);
      }
      seen := seen + {x};
      xs := xs + [x];
    }
    return Success(xs);
  }

  method Combine(shares: seq<seq<Byte>>) returns (r: Result<seq<Byte>, ShamirError>)
    ensures r.Success? <==> WellFormed(shares)
    ensures r.Success? ==> r.value == Recovered(shares)
    ensures |shares| < MIN_SHARES ==> r == Failure(TooFewShares)
    ensures |shares| >= MIN_SHARES && |shares[0]| < 2 ==> r == Failure(MalformedShare)
    ensures |shares| >= MIN_SHARES && |shares[0]| >= 2 && r.Failure? ==>
      exists i :: 0 <= i < |shares| && Usable(shares, i) && Faulty(shares, i, r.error)
  {
    hide Interpolate;
    if |shares| < MIN_SHARES {
      return Failure(TooFewShares);
    }
    var width := |shares[0]|;
    if width < 2 {
      return Failure(MalformedShare);
    }
    var points := Points(shares);
    if points.Failure? {
      return points;
    }
    hide Usable, Faulty;
    var xs := points.value;
    var secret := new Byte[width - 1];
    var ys := new Byte[|shares|];
    for position := 0 to width - 1
      invariant forall p :: 0 <= p < position ==> secret[p] == Interpolate(xs, Column(shares, p))
    {
      for index := 0 to |shares|
        modifies ys
        invariant forall j :: 0 <= j < index ==> ys[j] == shares[j][position]
      {
        ys[index] := shares[index][position];
      }
      assert ys[..] == Column(shares, position);
      secret[position] := InterpolateAtZero(xs, ys);
    }
    assert secret[..] == Recovered(shares);
    return Success(secret[..]);
  }

  // ---- any quorum recovers the secret; a smaller set says nothing about it ----

  predicate DistinctIndices(picks: seq<nat>) {
    && (forall k :: 0 <= k < |picks| ==> picks[k] < MAX_SHARES)
    && (forall k, l :: 0 <= k < l < |picks| ==> picks[k] != picks[l])
  }

  function Picked(secret: seq<Byte>, random: Randomness, threshold: nat, picks: seq<nat>): (shares: seq<seq<Byte>>)
    requires threshold > 0 && DistinctIndices(picks)
    ensures |shares| == |picks|
  {
    seq(|picks|, k requires 0 <= k < |picks| => Share(secret, random, threshold, picks[k]))
  }

  lemma PickedWellFormed(secret: seq<Byte>, random: Randomness, threshold: nat, picks: seq<nat>)
    requires secret != [] && |picks| >= MIN_SHARES && threshold > 0 && DistinctIndices(picks)
    ensures WellFormed(Picked(secret, random, threshold, picks))
    ensures Distinct(Xs(Picked(secret, random, threshold, picks)))
  {
    hide Eval, Point;
    var shares := Picked(secret, random, threshold, picks);
    forall i, j | 0 <= i < |shares| && 0 <= j < |shares|
      ensures shares[i][|secret|] != 0
      ensures i < j ==> shares[i][|secret|] != shares[j][|secret|]
    {
      PointInjective(picks[i], picks[j]);
    }
  }

  lemma CombineInvertsSplit(secret: seq<Byte>, random: Randomness, threshold: nat, picks: seq<nat>)
    requires secret != [] && MIN_SHARES <= threshold <= |picks| && DistinctIndices(picks)
    ensures var shares := Picked(secret, random, threshold, picks);
      WellFormed(shares) && Recovered(shares) == secret
  {
    hide Eval, Point, Interpolate;
    var shares := Picked(secret, random, threshold, picks);
    PickedWellFormed(secret, random, threshold, picks);
    forall p | 0 <= p < |secret| ensures Recovered(shares)[p] == secret[p] {
      var c := Coefficients(secret, random, threshold, p);
      assert Column(shares, p) == Values(c, Xs(shares));
      InterpolateValues(c, Xs(shares));
      EvalAtZero(c);
    }
  }

  // For one position: threshold - 1 values leave exactly one coefficient
  // vector for every candidate secret byte.
  lemma OneCompletion(xs: seq<Byte>, ys: seq<Byte>, candidate: Byte, c: seq<Byte>)
    requires |xs| == |ys| && |c| == |xs| + 1 && Distinct(xs) && 0 !in xs
    ensures c[0] == candidate && Values(c, xs) == ys <==> c == Through([0] + xs, [candidate] + ys)
  {
    hide Eval;
    var px, py := [0] + xs, [candidate] + ys;
    var d := Through(px, py);
    forall i | 0 <= i < |px| ensures Eval(d, px[i]) == py[i] {
      ThroughPoints(px, py, i);
    }
    EvalAtZero(c);
    EvalAtZero(d);
    forall i | 0 <= i < |xs| ensures Values(d, xs)[i] == ys[i] {
      assert px[i + 1] == xs[i] && py[i + 1] == ys[i];
    }
    if c[0] == candidate && Values(c, xs) == ys {
      forall i | 0 <= i < |px| ensures Eval(c, px[i]) == Eval(d, px[i]) {
        assert i > 0 ==> Values(c, xs)[i - 1] == Eval(c, xs[i - 1]);
      }
      InterpolationUnique(c, d, px);
    }
  }

  // Any threshold - 1 shares are the shares of every other secret of the same
  // length too, and the random coefficients that make them so are determined.
  lemma TooFewSharesHideSecret(secret: seq<Byte>, random: Randomness, threshold: nat, picks: seq<nat>, other: seq<Byte>)
    returns (alternative: Randomness)
    requires threshold >= MIN_SHARES && |picks| == threshold - 1 && DistinctIndices(picks) && |other| == |secret|
    ensures Picked(other, alternative, threshold, picks) == Picked(secret, random, threshold, picks)
    ensures forall rival: Randomness, p: nat, k: nat ::
      (Picked(other, rival, threshold, picks) == Picked(secret, random, threshold, picks)
       && p < |secret| && 1 <= k < threshold) ==> rival(p, k) == alternative(p, k)
  {
    hide Eval, Point, Through;
    var xs: seq<Byte> := seq(|picks|, k requires 0 <= k < |picks| => Point(picks[k]));
    forall i, j | 0 <= i < |xs| && 0 <= j < |xs| ensures xs[i] != 0 && (i < j ==> xs[i] != xs[j]) {
      PointInjective(picks[i], picks[j]);
    }
    var shares := Picked(secret, random, threshold, picks);
    alternative := (p: nat, k: nat) =>
      if p < |secret| && k < threshold then Through([0] + xs, [other[p]] + Column(shares, p))[k] else 0;
    forall rival: Randomness, p: nat | p < |secret|
      ensures Values(Coefficients(other, rival, threshold, p), xs) == Column(shares, p)
        <==> Coefficients(other, rival, threshold, p) == Through([0] + xs, [other[p]] + Column(shares, p))
    {
      OneCompletion(xs, Column(shares, p), other[p], Coefficients(other, rival, threshold, p));
    }
    forall p: nat | p < |secret|
      ensures Coefficients(other, alternative, threshold, p) == Through([0] + xs, [other[p]] + Column(shares, p))
    {
      var d := Through([0] + xs, [other[p]] + Column(shares, p));
      OneCompletion(xs, Column(shares, p), other[p], d);
    }
    SamePicked(secret, random, threshold, picks, other, alternative, xs);
    forall rival: Randomness, p: nat, k: nat |
      Picked(other, rival, threshold, picks) == shares && p < |secret| && 1 <= k < threshold
      ensures rival(p, k) == alternative(p, k)
    {
      SamePicked(secret, random, threshold, picks, other, rival, xs);
      assert Coefficients(other, rival, threshold, p)[k] == Coefficients(other, alternative, threshold, p)[k];
    }
  }

  lemma SamePicked(secret: seq<Byte>, random: Randomness, threshold: nat, picks: seq<nat>,
                   other: seq<Byte>, rival: Randomness, xs: seq<Byte>)
    requires threshold > 0 && DistinctIndices(picks) && |other| == |secret|
    requires |xs| == |picks| && forall k :: 0 <= k < |picks| ==> xs[k] == Point(picks[k])
    ensures Picked(other, rival, threshold, picks) == Picked(secret, random, threshold, picks)
      <==> forall p :: 0 <= p < |secret| ==>
        Values(Coefficients(other, rival, threshold, p), xs) == Column(Picked(secret, random, threshold, picks), p)
  {
    hide Eval, Point, Coefficients;
    var a, b := Picked(other, rival, threshold, picks), Picked(secret, random, threshold, picks);
    if forall p :: 0 <= p < |secret| ==> Values(Coefficients(other, rival, threshold, p), xs) == Column(b, p) {
      forall k | 0 <= k < |picks| ensures a[k] == b[k] {
        forall p | 0 <= p < |secret| ensures a[k][p] == b[k][p] {
          assert Column(b, p)[k] == Values(Coefficients(other, rival, threshold, p), xs)[k];
        }
      }
    }
  }
}
