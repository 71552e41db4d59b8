/** UTF-8 as section 3 of RFC 3629 has it, and its repair. */
module Utf8 {
  import opened Encoding

  predicate Continues(b: byte) { 0x80 <= b <= 0xBF }

  // The length of the character at the front, or 0 when there is none.
  function RuneLength(s: Text): (n: nat)
    ensures n <= |s|
  {
    if s == [] then 0
    else if s[0] < 0x80 then 1
    else if 0xC2 <= s[0] <= 0xDF then (if |s| >= 2 && Continues(s[1]) then 2 else 0)
    else if 0xE0 <= s[0] <= 0xEF then
      (if |s| >= 3 && Continues(s[1]) && Continues(s[2])
          && (s[0] == 0xE0 ==> s[1] >= 0xA0) && (s[0] == 0xED ==> s[1] <= 0x9F) then 3 else 0)
    else if 0xF0 <= s[0] <= 0xF4 then
      (if |s| >= 4 && Continues(s[1]) && Continues(s[2]) && Continues(s[3])
          && (s[0] == 0xF0 ==> s[1] >= 0x90) && (s[0] == 0xF4 ==> s[1] <= 0x8F) then 4 else 0)
    else 0
  }

  predicate ValidUtf8(s: Text)
    decreases |s|
  {
    s == [] || (RuneLength(s) > 0 && ValidUtf8(s[RuneLength(s)..]))
  }

  const REPLACEMENT: Text := [0xEF, 0xBF, 0xBD]

  // Each byte that is not part of a character becomes U+FFFD.
  function Repaired(s: Text): Text
    decreases |s|
  {
    if s == [] then []
    else
      var n := RuneLength(s);
      if n == 0 then REPLACEMENT + Repaired(s[1..]) else s[..n] + Repaired(s[n..])
  }

  lemma {:induction false} RepairedLength(s: Text)
    ensures |Repaired(s)| <= 3 * |s|
    decreases |s|
  {
    if s != [] {
      var n := RuneLength(s);
      RepairedLength(if n == 0 then s[1..] else s[n..]);
    }
  }

  lemma {:induction false} RepairsOnlyInvalid(s: Text)
    ensures Repaired(s) == s <==> ValidUtf8(s)
    decreases |s|
  {
    if s != [] {
      var n := RuneLength(s);
      if n == 0 {
        var r := Repaired(s);
        assert r[0] == 0xEF && r[1] == 0xBF && r[2] == 0xBD;
      } else {
        RepairsOnlyInvalid(s[n..]);
        assert s == s[..n] + s[n..];
        assert Repaired(s)[n..] == Repaired(s[n..]);
      }
    }
  }

  lemma {:induction false} RepairedIsValid(s: Text)
    ensures ValidUtf8(Repaired(s))
    decreases |s|
  {
    hide RuneLength;
    if s != [] {
      var n := RuneLength(s);
      var rest := if n == 0 then s[1..] else s[n..];
      RepairedIsValid(rest);
      RuneFront(s, Repaired(rest));
      assert Repaired(s)[if n == 0 then 3 else n..] == Repaired(rest);
    }
  }

  // A character is one whatever follows it.
  lemma RuneFront(s: Text, rest: Text)
    ensures RuneLength(REPLACEMENT + rest) == 3
    ensures var n := RuneLength(s);
      n > 0 ==> RuneLength(s[..n] + rest) == n
  {}

  // A valid string stays valid from any byte that does not continue a character.
  lemma {:induction false} ValidFrom(s: Text, i: nat)
    requires ValidUtf8(s) && i < |s| && !Continues(s[i])
    ensures ValidUtf8(s[i..])
    decreases |s|
  {
    hide ValidUtf8;
    if i != 0 {
      UnfoldValid(s);
      var n := RuneLength(s);
      assert forall j :: 0 < j < n ==> Continues(s[j]);
      assert s[n..][i - n] == s[i];
      ValidFrom(s[n..], i - n);
      assert s[n..][i - n..] == s[i..];
    } else {
      assert s[0..] == s;
    }
  }

  lemma UnfoldValid(s: Text)
    requires ValidUtf8(s) && s != []
    ensures RuneLength(s) > 0 && ValidUtf8(s[RuneLength(s)..])
  {}

  // ---- what the strings are: characters written one after another ----

  // The code points there are characters for; the surrogates are not among them.
  predicate Scalar(c: int) { 0 <= c < 0x11_0000 && !(0xD800 <= c < 0xE000) }

  function Written(c: int): (s: Text)
    requires Scalar(c)
    ensures 1 <= |s| <= 4
  {
    if c < 0x80 then [c as byte]
    else if c < 0x800 then [(0xC0 + c / 0x40) as byte, (0x80 + c % 0x40) as byte]
    else if c < 0x1_0000 then
      [(0xE0 + c / 0x1000) as byte, (0x80 + c / 0x40 % 0x40) as byte, (0x80 + c % 0x40) as byte]
    else
      [(0xF0 + c / 0x4_0000) as byte, (0x80 + c / 0x1000 % 0x40) as byte, (0x80 + c / 0x40 % 0x40) as byte,
       (0x80 + c % 0x40) as byte]
  }

  function Spelled(cs: seq<int>): Text
    requires forall i :: 0 <= i < |cs| ==> Scalar(cs[i])
  {
    if cs == [] then [] else Written(cs[0]) + Spelled(cs[1..])
  }

  // The front of a string is a character exactly when it is one that has been written.
  lemma WrittenIsRune(c: int, rest: Text)
    requires Scalar(c)
    ensures RuneLength(Written(c) + rest) == |Written(c)|
  {}

  // The character at the front, read back from its bytes.
  function CodePoint(s: Text): int
    requires RuneLength(s) > 0
  {
    var n := RuneLength(s);
    if n == 1 then s[0] as int
    else if n == 2 then (s[0] as int - 0xC0) * 0x40 + (s[1] as int - 0x80)
    else if n == 3 then (s[0] as int - 0xE0) * 0x1000 + (s[1] as int - 0x80) * 0x40 + (s[2] as int - 0x80)
    else
      (s[0] as int - 0xF0) * 0x4_0000 + (s[1] as int - 0x80) * 0x1000 + (s[2] as int - 0x80) * 0x40
      + (s[3] as int - 0x80)
  }

  lemma RuneIsWritten(s: Text)
    requires RuneLength(s) > 0
    ensures Scalar(CodePoint(s)) && s[..RuneLength(s)] == Written(CodePoint(s))
  {
    var n := RuneLength(s);
    if n == 2 {
      Sextets(s[0] as int - 0xC0, s[1] as int - 0x80);
    } else if n == 3 {
      ThreeBytes(s);
    } else if n == 4 {
      FourBytes(s);
    }
  }

  lemma ThreeBytes(s: Text)
    requires RuneLength(s) == 3
    ensures Scalar(CodePoint(s)) && s[..3] == Written(CodePoint(s))
  {
    var c, a, b, d := CodePoint(s), s[0] as int - 0xE0, s[1] as int - 0x80, s[2] as int - 0x80;
    assert c == (a * 0x40 + b) * 0x40 + d && Scalar(c) && 0x800 <= c < 0x1_0000;
    hide RuneLength, CodePoint, Continues;
    Sextets(a * 0x40 + b, d);
    Sextets(a, b);
    assert c / 0x1000 == c / 0x40 / 0x40;
  }

  lemma FourBytes(s: Text)
    requires RuneLength(s) == 4
    ensures Scalar(CodePoint(s)) && s[..4] == Written(CodePoint(s))
  {
    var c, a, b := CodePoint(s), s[0] as int - 0xF0, s[1] as int - 0x80;
    var d, e := s[2] as int - 0x80, s[3] as int - 0x80;
    assert c == ((a * 0x40 + b) * 0x40 + d) * 0x40 + e && Scalar(c) && 0x1_0000 <= c;
    assert 0 <= b < 0x40 && 0 <= d < 0x40 && 0 <= e < 0x40;
    hide RuneLength, CodePoint, Continues;
    Sextets((a * 0x40 + b) * 0x40 + d, e);
    Sextets(a * 0x40 + b, d);
    Sextets(a, b);
    assert c / 0x1000 == c / 0x40 / 0x40;
    assert c / 0x4_0000 == c / 0x1000 / 0x40;
  }

  lemma Sextets(high: int, low: int)
    requires 0 <= low < 0x40
    ensures (high * 0x40 + low) / 0x40 == high && (high * 0x40 + low) % 0x40 == low
  {}

  // A string is valid exactly when it spells out some characters.
  lemma {:induction false} SpelledIsValid(cs: seq<int>)
    requires forall i :: 0 <= i < |cs| ==> Scalar(cs[i])
    ensures ValidUtf8(Spelled(cs))
    decreases |cs|
  {
    hide RuneLength, Written;
    if cs != [] {
      WrittenIsRune(cs[0], Spelled(cs[1..]));
      SpelledIsValid(cs[1..]);
      assert Spelled(cs)[|Written(cs[0])|..] == Spelled(cs[1..]);
    }
  }

  lemma {:induction false} ValidIsSpelled(s: Text) returns (cs: seq<int>)
    requires ValidUtf8(s)
    ensures forall i :: 0 <= i < |cs| ==> Scalar(cs[i])
    ensures Spelled(cs) == s
    decreases |s|
  {
    hide Written, Scalar;
    cs := [];
    if s != [] {
      UnfoldValid(s);
      var n := RuneLength(s);
      RuneIsWritten(s);
      var rest := ValidIsSpelled(s[n..]);
      cs := [CodePoint(s)] + rest;
      assert cs[1..] == rest;
      assert s == s[..n] + s[n..];
    }
  }
}
