/** Length-prefixed encodings: derivation labels and additional authenticated data. */
module Encoding {
  import opened Wrappers

  newtype byte = x: int | 0 <= x < 256

  // A string is its bytes.
  type Text = seq<byte>

  // The signed 64-bit int of the implementation.
  type Int64 = x: int | -0x8000_0000_0000_0000 <= x < 0x8000_0000_0000_0000

  const MAX_FIELD_LEN := 0x10_0000

  // ---- big-endian integers ----

  function Pow256(k: nat): nat {
    if k == 0 then 1 else 256 * Pow256(k - 1)
  }

  // The low k bytes of n, most significant first.
  function BigEndian(n: nat, k: nat): (s: Text)
    ensures |s| == k
    decreases k
  {
    if k == 0 then [] else BigEndian(n / 256, k - 1) + [(n % 256) as byte]
  }

  function FromBigEndian(s: Text): nat {
    if s == [] then 0 else 256 * FromBigEndian(s[..|s| - 1]) + s[|s| - 1] as nat
  }

  lemma {:induction false} BigEndianRoundTrip(n: nat, k: nat)
    requires n < Pow256(k)
    ensures FromBigEndian(BigEndian(n, k)) == n
    decreases k
  {
    if k != 0 {
      BigEndianRoundTrip(n / 256, k - 1);
      assert BigEndian(n, k)[..k - 1] == BigEndian(n / 256, k - 1);
    }
  }

  lemma BigEndianInjective(m: nat, n: nat, k: nat)
    requires m < Pow256(k) && n < Pow256(k) && BigEndian(m, k) == BigEndian(n, k)
    ensures m == n
  {
    BigEndianRoundTrip(m, k);
    BigEndianRoundTrip(n, k);
  }

  lemma PrefixWidths()
    ensures Pow256(4) == 0x1_0000_0000 && Pow256(8) == 0x1_0000_0000_0000_0000
  {
    assert Pow256(4) == 256 * 256 * 256 * 256 * Pow256(0);
    assert Pow256(8) == 256 * 256 * 256 * 256 * Pow256(4);
  }

  // ---- one length-prefixed field ----

  function Field(part: Text): (s: Text)
    ensures |s| == 4 + |part|
  {
    BigEndian(|part|, 4) + part
  }

  // A field tells where it ends, so what follows it is determined.
  lemma FieldPrefix(p: Text, q: Text, restP: Text, restQ: Text)
    requires |p| < Pow256(4) && |q| < Pow256(4)
    requires Field(p) + restP == Field(q) + restQ
    ensures p == q && restP == restQ
  {
    var a, b := Field(p) + restP, Field(q) + restQ;
    assert a[..4] == BigEndian(|p|, 4) && b[..4] == BigEndian(|q|, 4);
    BigEndianInjective(|p|, |q|, 4);
    assert a[4..4 + |p|] == p && b[4..4 + |p|] == q;
    assert a[4 + |p|..] == restP && b[4 + |p|..] == restQ;
  }

  function Fields(parts: seq<Text>): Text {
    if parts == [] then [] else Field(parts[0]) + Fields(parts[1..])
  }

  predicate Encodable(parts: seq<Text>) { forall i :: 0 <= i < |parts| ==> |parts[i]| <= MAX_FIELD_LEN }

  // Lists of any lengths: no list of fields encodes like another.
  lemma {:induction false} FieldsInjective(p: seq<Text>, q: seq<Text>)
    requires forall i :: 0 <= i < |p| ==> |p[i]| < Pow256(4)
    requires forall i :: 0 <= i < |q| ==> |q[i]| < Pow256(4)
    requires Fields(p) == Fields(q)
    ensures p == q
    decreases |p|
  {
    hide Field, Pow256;
    if p == [] || q == [] {
      assert p != [] ==> |Fields(p)| >= 4;
      assert q != [] ==> |Fields(q)| >= 4;
    } else {
      FieldPrefix(p[0], q[0], Fields(p[1..]), Fields(q[1..]));
      FieldsInjective(p[1..], q[1..]);
      assert p == [p[0]] + p[1..] && q == [q[0]] + q[1..];
    }
  }

  lemma {:induction false} FieldsAppend(parts: seq<Text>, part: Text)
    ensures Fields(parts + [part]) == Fields(parts) + Field(part)
    decreases |parts|
  {
    if parts == [] {
      assert Fields([part]) == Field(part) + Fields([part][1..]);
    } else {
      assert (parts + [part])[1..] == parts[1..] + [part];
      FieldsAppend(parts[1..], part);
    }
  }

  lemma OneFieldMore(before: Text, parts: seq<Text>, i: nat)
    requires i < |parts|
    ensures before + Fields(parts[..i]) + BigEndian(|parts[i]|, 4) + parts[i] == before + Fields(parts[..i + 1])
  {
    hide Fields, BigEndian;
    var part := parts[i];
    FieldsAppend(parts[..i], part);
    assert parts[..i + 1] == parts[..i] + [part];
    var encoded, n := Fields(parts[..i]), BigEndian(|part|, 4);
    assert before + encoded + n + part == before + (encoded + (n + part));
  }

  // ---- derivation labels ----

  datatype EncodingError = LabelPart | EmptyTenant | EmptyPath | BadVersion | FieldTooLong

  function LabelOf(parts: seq<Text>): Result<Text, EncodingError> {
    if Encodable(parts) then Success(Fields(parts)) else Failure(LabelPart)
  }

  lemma EncodableMore(parts: seq<Text>, i: nat)
    requires i < |parts| && Encodable(parts[..i])
    ensures Encodable(parts[..i + 1]) <==> |parts[i]| <= MAX_FIELD_LEN
    ensures Encodable(parts) ==> |parts[i]| <= MAX_FIELD_LEN
  {
    var more := parts[..i + 1];
    assert more[i] == parts[i];
    forall j | 0 <= j < i ensures |more[j]| <= MAX_FIELD_LEN {
      assert more[j] == parts[..i][j];
    }
  }

  method Label(parts: seq<Text>) returns (r: Result<Text, EncodingError>)
    ensures r == LabelOf(parts)
  {
    assert Fields([]) == [];
    assert Encodable(parts[..0]);
    hide BigEndian, Fields, Encodable;
    var encoded: Text := [];
    for i := 0 to |parts|
      invariant Encodable(parts[..i]) && encoded == [] + Fields(parts[..i])
    {
      EncodableMore(parts, i);
      if |parts[i]| > MAX_FIELD_LEN {
        return Failure(LabelPart);
      }
      OneFieldMore([], parts, i);
      encoded := encoded + BigEndian(|parts[i]|, 4);
      encoded := encoded + parts[i];
    }
    assert parts[..|parts|] == parts;
    assert encoded == Fields(parts);
    return Success(encoded);
  }

  lemma LabelInjective(p: seq<Text>, q: seq<Text>)
    requires LabelOf(p).Success? && LabelOf(p) == LabelOf(q)
    ensures p == q
  {
    PrefixWidths();
    hide Pow256, Fields;
    FieldsInjective(p, q);
  }

  // The layout: for each part its length in four bytes, highest first, then the part.
  lemma LabelLayout(part: Text, rest: seq<Text>)
    requires LabelOf([part] + rest).Success?
    ensures LabelOf(rest).Success? && LabelOf([]) == Success([])
    ensures var n := |part|;
      LabelOf([part] + rest).value ==
        [(n / 0x100_0000 % 256) as byte, (n / 0x1_0000 % 256) as byte, (n / 0x100 % 256) as byte, (n % 256) as byte]
        + part + LabelOf(rest).value
  {
    hide BigEndian;
    var parts := [part] + rest;
    assert parts[1..] == rest;
    forall i | 0 <= i < |rest| ensures |rest[i]| <= MAX_FIELD_LEN {
      assert rest[i] == parts[i + 1];
    }
    FourBytes(|part|);
  }

  lemma FourBytes(n: nat)
    ensures BigEndian(n, 4) ==
      [(n / 0x100_0000 % 256) as byte, (n / 0x1_0000 % 256) as byte, (n / 0x100 % 256) as byte, (n % 256) as byte]
  {
    assert n / 256 / 256 / 256 == n / 0x100_0000 && n / 256 / 256 == n / 0x1_0000;
    assert BigEndian(n, 4) == BigEndian(n / 256, 3) + [(n % 256) as byte];
    assert BigEndian(n / 256, 3) == BigEndian(n / 256 / 256, 2) + [(n / 256 % 256) as byte];
    assert BigEndian(n / 256 / 256, 2) == BigEndian(n / 256 / 256 / 256, 1) + [(n / 256 / 256 % 256) as byte];
    assert BigEndian(n / 0x100_0000, 1) == BigEndian(n / 0x100_0000 / 256, 0) + [(n / 0x100_0000 % 256) as byte];
  }

  // ---- decimal integers ----

  const MINUS: byte := 45
  const ZERO_DIGIT: byte := 48

  function Digits(n: nat): (s: Text)
    ensures |s| > 0
    ensures forall i :: 0 <= i < |s| ==> ZERO_DIGIT <= s[i] < ZERO_DIGIT + 10
    ensures |s| > 1 ==> s[0] != ZERO_DIGIT
    ensures n != 0 ==> s[0] != ZERO_DIGIT
    decreases n
  {
    if n < 10 then [(48 + n) as byte] else Digits(n / 10) + [(48 + n % 10) as byte]
  }

  function Pow10(k: nat): nat {
    if k == 0 then 1 else 10 * Pow10(k - 1)
  }

  lemma {:induction false} DigitsShort(n: nat, k: nat)
    requires k >= 1 && n < Pow10(k)
    ensures |Digits(n)| <= k
    decreases k
  {
    if n >= 10 {
      DigitsShort(n / 10, k - 1);
    }
  }

  lemma LabelIntShort(value: Int64)
    ensures |LabelInt(value)| <= 20
  {
    assert Pow10(6) == 1_000_000;
    assert Pow10(12) == 1_000_000 * Pow10(6);
    assert Pow10(18) == 1_000_000 * Pow10(12);
    assert Pow10(19) == 10 * Pow10(18);
    var n: int := value;
    DigitsShort(if n < 0 then -n else n, 19);
  }

  function ParseDigits(s: Text): int {
    if s == [] then 0 else 10 * ParseDigits(s[..|s| - 1]) + (s[|s| - 1] as int - 48)
  }

  lemma {:induction false} DigitsRoundTrip(n: nat)
    ensures ParseDigits(Digits(n)) == n
    decreases n
  {
    var s := Digits(n);
    if n < 10 {
      assert s[..0] == [];
    } else {
      DigitsRoundTrip(n / 10);
      assert s[..|s| - 1] == Digits(n / 10);
    }
  }

  function LabelInt(value: int): (s: Text)
    ensures s != []
  {
    if value < 0 then [MINUS] + Digits(-value) else Digits(value)
  }

  function ParseInt(s: Text): int
    requires s != []
  {
    if s[0] == MINUS then -ParseDigits(s[1..]) else ParseDigits(s)
  }

  lemma LabelIntRoundTrip(value: int)
    ensures ParseInt(LabelInt(value)) == value
  {
    hide ParseDigits;
    if value < 0 {
      assert LabelInt(value)[1..] == Digits(-value);
      DigitsRoundTrip(-value);
    } else {
      DigitsRoundTrip(value);
    }
  }

  const KEK_LABEL: Text := [107, 101, 107]

  function KekLabel(tenant: Text, version: int): Result<Text, EncodingError> {
    LabelOf([KEK_LABEL, tenant, LabelInt(version)])
  }

  lemma KekLabelInjective(t: Text, v: int, t': Text, v': int)
    requires KekLabel(t, v).Success? && KekLabel(t, v) == KekLabel(t', v')
    ensures t == t' && v == v'
  {
    var p, q := [KEK_LABEL, t, LabelInt(v)], [KEK_LABEL, t', LabelInt(v')];
    LabelInjective(p, q);
    assert p[1] == q[1] && p[2] == q[2];
    LabelIntRoundTrip(v);
    LabelIntRoundTrip(v');
  }

  // ---- additional authenticated data ----

  datatype AAD = AAD(tenant: Text, path: Text, version: Int64)

  function Validate(a: AAD): Result<(), EncodingError> {
    if a.tenant == [] then Failure(EmptyTenant)
    else if a.path == [] then Failure(EmptyPath)
    else if a.version < 1 then Failure(BadVersion)
    else if |a.tenant| > MAX_FIELD_LEN || |a.path| > MAX_FIELD_LEN then Failure(FieldTooLong)
    else Success(())
  }

  function Encode(a: AAD): Result<Text, EncodingError> {
    var valid := Validate(a);
    if valid.Failure? then Failure(valid.error)
    else Success(Field(a.tenant) + Field(a.path) + BigEndian(a.version, 8))
  }

  lemma EncodeInjective(a: AAD, b: AAD)
    requires Encode(a).Success? && Encode(a) == Encode(b)
    ensures a == b
  {
    PrefixWidths();
    hide Pow256, Field, BigEndian;
    var va, vb := BigEndian(a.version, 8), BigEndian(b.version, 8);
    assert Field(a.tenant) + Field(a.path) + va == Field(a.tenant) + (Field(a.path) + va);
    assert Field(b.tenant) + Field(b.path) + vb == Field(b.tenant) + (Field(b.path) + vb);
    FieldPrefix(a.tenant, b.tenant, Field(a.path) + va, Field(b.path) + vb);
    FieldPrefix(a.path, b.path, va, vb);
    BigEndianInjective(a.version, b.version, 8);
  }

  // Every tenant and path up to a mebibyte and every positive version encodes; the two
  // texts come with their lengths, the version in eight bytes at the end.
  lemma EncodeLayout(a: AAD)
    ensures (Encode(a).Success? <==> 0 < |a.tenant| <= 0x10_0000 && 0 < |a.path| <= 0x10_0000 && a.version >= 1)
    ensures Encode(a).Success? ==>
      Encode(a).value == BigEndian(|a.tenant|, 4) + a.tenant + BigEndian(|a.path|, 4) + a.path + BigEndian(a.version, 8)
  {
    hide BigEndian;
    if Encode(a).Success? {
      var n, m := BigEndian(|a.tenant|, 4), BigEndian(|a.path|, 4);
      assert n + a.tenant + (m + a.path) == n + a.tenant + m + a.path;
    }
  }
}
