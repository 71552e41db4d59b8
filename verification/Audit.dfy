/** The hash-chained audit log. */
module Audit {
  import opened Wrappers
  import opened Encoding

  const GENESIS: Text := []
  const MAX_LINE := 0x10_0000
  const HASH_LEN := 64

  // SHA-256 in lower-case hex. Collisions are excluded only among the inputs a
  // claim is about, since no function onto 64 characters is injective outright.
  type Sha = Text -> Text

  predicate HexDigit(b: byte) { 48 <= b <= 57 || 97 <= b <= 102 }

  predicate Hex(h: Text) { |h| == HASH_LEN && forall i :: 0 <= i < |h| ==> HexDigit(h[i]) }

  ghost predicate HexHash(sha: Sha) { forall x :: Hex(sha(x)) }

  datatype Event = Event(
    operation: Text, identity: Text, tenant: Text, path: Text, version: int, result: Text,
    policy: Text, rule: Text, requestId: Text, sourceIp: Text)

  datatype Record = Record(sequence: int, time: Text, event: Event, prevHash: Text, hash: Text)

  // ---- the chained encoding ----

  function Parts(r: Record): (parts: seq<Text>)
    ensures |parts| == 12
  {
    var e := r.event;
    [LabelInt(r.sequence), r.time, e.operation, e.identity, e.tenant, e.path, LabelInt(e.version), e.result,
     e.policy, e.rule, e.requestId, e.sourceIp]
  }

  function ChainInput(r: Record): Text { r.prevHash + Fields(Parts(r)) }

  // The order of what is hashed: the previous hash as it is, then every field after its length.
  lemma ChainInputLayout(r: Record)
    ensures var e := r.event;
      ChainInput(r) == r.prevHash
        + Fields([LabelInt(r.sequence), r.time, e.operation, e.identity, e.tenant, e.path, LabelInt(e.version),
                  e.result, e.policy, e.rule, e.requestId, e.sourceIp])
  {}

  method Chain(sha: Sha, r: Record) returns (hash: Text)
    ensures hash == sha(ChainInput(r))
  {
    assert Fields([]) == [];
    hide BigEndian, Fields;
    var digest := r.prevHash;
    var parts := Parts(r);
    for i := 0 to |parts|
      invariant digest == r.prevHash + Fields(parts[..i])
    {
      OneFieldMore(r.prevHash, parts, i);
      digest := digest + BigEndian(|parts[i]|, 4);
      digest := digest + parts[i];
    }
    assert parts[..|parts|] == parts;
    hash := sha(digest);
  }

  // Lengths whose four-byte prefix starts with a zero byte.
  predicate Short(r: Record) { forall i :: 0 <= i < 12 ==> |Parts(r)[i]| < 0x100_0000 }

  predicate PrevHash(h: Text) { h == GENESIS || Hex(h) }

  lemma PrefixStartsWithZero(r: Record)
    requires Short(r)
    ensures |Fields(Parts(r))| >= 4 && Fields(Parts(r))[0] == 0
  {
    var n := |Parts(r)[0]|;
    assert n < 0x100_0000;
    TopByte(n);
    assert Fields(Parts(r))[0] == Field(Parts(r)[0])[0] == BigEndian(n, 4)[0];
  }

  lemma TopByte(n: nat)
    requires n < 0x100_0000
    ensures BigEndian(n, 4)[0] == 0
  {
    assert n / 256 / 256 / 256 == 0;
    assert BigEndian(n, 4) == BigEndian(n / 256, 3) + [(n % 256) as byte];
    assert BigEndian(n / 256, 3) == BigEndian(n / 256 / 256, 2) + [(n / 256 % 256) as byte];
    assert BigEndian(n / 256 / 256, 2) == BigEndian(n / 256 / 256 / 256, 1) + [(n / 256 / 256 % 256) as byte];
    assert BigEndian(0, 1) == BigEndian(0, 0) + [0];
  }

  // The previous hash carries no length, yet the encoding is injective: it is
  // empty or begins with a hex digit, and a length prefix begins with zero.
  lemma ChainInputInjective(r: Record, s: Record)
    requires Short(r) && Short(s) && PrevHash(r.prevHash) && PrevHash(s.prevHash)
    requires ChainInput(r) == ChainInput(s)
    ensures r.(hash := []) == s.(hash := [])
  {
    hide Fields, Parts, Hex;
    PrefixStartsWithZero(r);
    PrefixStartsWithZero(s);
    SamePrevLength(r, s);
    var n := |r.prevHash|;
    assert ChainInput(r)[..n] == r.prevHash && ChainInput(s)[..n] == s.prevHash;
    assert ChainInput(r)[n..] == Fields(Parts(r)) && ChainInput(s)[n..] == Fields(Parts(s));
    PrefixWidths();
    FieldsInjective(Parts(r), Parts(s));
    PartsInjective(r, s);
  }

  lemma SamePrevLength(r: Record, s: Record)
    requires PrevHash(r.prevHash) && PrevHash(s.prevHash) && ChainInput(r) == ChainInput(s)
    requires |Fields(Parts(r))| >= 4 && Fields(Parts(r))[0] == 0 && |Fields(Parts(s))| >= 4 && Fields(Parts(s))[0] == 0
    ensures |r.prevHash| == |s.prevHash|
  {
    hide Fields, Parts;
    assert ChainInput(r)[0] == if r.prevHash == [] then 0 else r.prevHash[0];
    assert ChainInput(s)[0] == if s.prevHash == [] then 0 else s.prevHash[0];
    assert r.prevHash != [] ==> HexDigit(r.prevHash[0]);
    assert s.prevHash != [] ==> HexDigit(s.prevHash[0]);
  }

  lemma PartsInjective(r: Record, s: Record)
    requires Parts(r) == Parts(s)
    ensures r.sequence == s.sequence && r.time == s.time && r.event == s.event
  {
    var p, q := Parts(r), Parts(s);
    assert p[0] == q[0] && p[1] == q[1] && p[2] == q[2] && p[3] == q[3] && p[4] == q[4] && p[5] == q[5];
    assert p[6] == q[6] && p[7] == q[7] && p[8] == q[8] && p[9] == q[9] && p[10] == q[10] && p[11] == q[11];
    LabelIntRoundTrip(r.sequence);
    LabelIntRoundTrip(s.sequence);
    LabelIntRoundTrip(r.event.version);
    LabelIntRoundTrip(s.event.version);
  }

  // ---- the file ----

  // Readable is a line that decodes to a record, with its length in bytes;
  // Garbage is any other line that is not empty.
  datatype Line = Blank | Garbage(size: nat) | Readable(record: Record, size: nat)

  // A decoded field is at most three times as long as the text it came from.
  predicate Decoded(l: Line) {
    l.Readable? ==> (forall i :: 0 <= i < 12 ==> |Parts(l.record)[i]| <= 3 * l.size + 20)
  }

  predicate TooLong(l: Line) { !l.Blank? && l.size >= MAX_LINE }

  datatype Report = Report(records: int, lastHash: Text)

  // The number is the record the scan expected next.
  datatype Broken = LineTooLong(at: int) | Unreadable(at: int) | WrongSequence(at: int) | NotFollowing(at: int) | Altered(at: int)

  // What is wrong with a line where this record is expected after this hash.
  function Fault(sha: Sha, l: Line, expected: int, previous: Text): Option<Broken> {
    if l.Blank? then None
    else if TooLong(l) then Some(LineTooLong(expected))
    else if l.Garbage? then Some(Unreadable(expected))
    else if l.record.sequence != expected then Some(WrongSequence(expected))
    else if l.record.prevHash != previous then Some(NotFollowing(expected))
    else if sha(ChainInput(l.record)) != l.record.hash then Some(Altered(expected))
    else None
  }

  // The records of a file, blank lines left out.
  function Records(lines: seq<Line>): (rs: seq<Record>)
    decreases |lines|
  {
    if lines == [] then []
    else
      var l := lines[|lines| - 1];
      Records(lines[..|lines| - 1]) + if l.Readable? then [l.record] else []
  }

  function Tip(rs: seq<Record>): Text { if rs == [] then GENESIS else rs[|rs| - 1].hash }

  predicate Chained(sha: Sha, rs: seq<Record>) {
    forall i :: 0 <= i < |rs| ==>
      && rs[i].sequence == i + 1
      && rs[i].prevHash == Tip(rs[..i])
      && rs[i].hash == sha(ChainInput(rs[i]))
  }

  predicate Legible(lines: seq<Line>) {
    forall i :: 0 <= i < |lines| ==> lines[i].Blank? || (lines[i].Readable? && lines[i].size < MAX_LINE)
  }

  predicate Accepted(sha: Sha, lines: seq<Line>) { Legible(lines) && Chained(sha, Records(lines)) }

  lemma LegibleOneMore(lines: seq<Line>, i: nat)
    requires i < |lines|
    ensures lines[..i + 1] == lines[..i] + [lines[i]]
    ensures Records(lines[..i + 1]) == Records(lines[..i]) + if lines[i].Readable? then [lines[i].record] else []
    ensures Legible(lines[..i + 1]) <==> Legible(lines[..i]) && (lines[i].Blank? || (lines[i].Readable? && lines[i].size < MAX_LINE))
  {
    var more := lines[..i + 1];
    assert more[..|more| - 1] == lines[..i];
    if Legible(lines[..i]) && (lines[i].Blank? || (lines[i].Readable? && lines[i].size < MAX_LINE)) {
      forall j | 0 <= j < |more| ensures more[j].Blank? || (more[j].Readable? && more[j].size < MAX_LINE) {
        assert j < i ==> more[j] == lines[..i][j];
      }
    }
    if Legible(more) {
      forall j | 0 <= j < i ensures lines[..i][j] == more[j] {}
      assert more[i] == lines[i];
    }
  }

  lemma ChainedOneMore(sha: Sha, rs: seq<Record>, r: Record)
    ensures Chained(sha, rs + [r]) <==>
      Chained(sha, rs) && r.sequence == |rs| + 1 && r.prevHash == Tip(rs) && r.hash == sha(ChainInput(r))
  {
    hide ChainInput;
    var more := rs + [r];
    assert more[..|rs|] == rs;
    forall i | 0 <= i < |rs| ensures more[i] == rs[i] && more[..i] == rs[..i] {}
    if Chained(sha, more) {
      assert more[|rs|] == r;
      forall i | 0 <= i < |rs|
        ensures rs[i].sequence == i + 1 && rs[i].prevHash == Tip(rs[..i]) && rs[i].hash == sha(ChainInput(rs[i]))
      {
        assert more[i] == rs[i];
      }
    }
  }

  // The scan carries on past a line exactly when the lines so far are accepted.
  lemma Advance(sha: Sha, lines: seq<Line>, i: nat)
    requires i < |lines| && Accepted(sha, lines[..i])
    ensures Accepted(sha, lines[..i + 1]) <==> FaultAt(sha, lines, i).None?
    ensures Records(lines[..i + 1]) == Records(lines[..i]) + if lines[i].Readable? then [lines[i].record] else []
  {
    hide ChainInput, Legible, Chained, Records;
    var rs := Records(lines[..i]);
    LegibleOneMore(lines, i);
    if lines[i].Readable? {
      ChainedOneMore(sha, rs, lines[i].record);
    } else {
      assert rs + [] == rs;
    }
  }

  lemma {:induction false} AcceptedPrefix(sha: Sha, lines: seq<Line>, i: nat)
    requires i <= |lines|
    ensures Accepted(sha, lines) ==> Accepted(sha, lines[..i])
    decreases |lines| - i
  {
    hide ChainInput, Legible, Chained, Records;
    if i == |lines| {
      assert lines[..i] == lines;
    } else {
      AcceptedPrefix(sha, lines, i + 1);
      LegibleOneMore(lines, i);
      var rs := Records(lines[..i]);
      if lines[i].Readable? {
        ChainedOneMore(sha, rs, lines[i].record);
      } else {
        assert rs + [] == rs;
      }
    }
  }

  lemma AcceptedOneMore(sha: Sha, lines: seq<Line>, line: Line)
    ensures Accepted(sha, lines + [line]) <==>
      Accepted(sha, lines) && Fault(sha, line, |Records(lines)| + 1, Tip(Records(lines))).None?
    ensures Records(lines + [line]) == Records(lines) + if line.Readable? then [line.record] else []
  {
    hide ChainInput, Legible, Chained, Records, Accepted, Fault;
    var more := lines + [line];
    assert more[..|lines|] == lines && more[..|lines| + 1] == more;
    AcceptedPrefix(sha, more, |lines|);
    LegibleOneMore(more, |lines|);
    if Accepted(sha, lines) {
      Advance(sha, more, |lines|);
    }
  }

  // What the scan finds wrong with line i, the lines before it being accepted.
  function FaultAt(sha: Sha, lines: seq<Line>, i: nat): Option<Broken>
    requires i < |lines|
  {
    var rs := Records(lines[..i]);
    Fault(sha, lines[i], |rs| + 1, Tip(rs))
  }

  predicate FirstFault(sha: Sha, lines: seq<Line>, i: nat, error: Broken)
    requires i < |lines|
  {
    Accepted(sha, lines[..i]) && FaultAt(sha, lines, i) == Some(error)
  }

  // What each report says of the line it is about, the number being that of the record
  // expected there.
  lemma FaultMeaning(sha: Sha, lines: seq<Line>, i: nat, error: Broken)
    requires i < |lines| && FirstFault(sha, lines, i, error)
    ensures Accepted(sha, lines[..i]) && error.at == |Records(lines[..i])| + 1
    ensures var l, tip := lines[i], Tip(Records(lines[..i]));
      && (error.LineTooLong? <==> !l.Blank? && l.size >= 0x10_0000)
      && (error.Unreadable? <==> l.Garbage? && l.size < 0x10_0000)
      && (error.WrongSequence? <==> l.Readable? && l.size < 0x10_0000 && l.record.sequence != error.at)
      && (error.NotFollowing? <==>
           l.Readable? && l.size < 0x10_0000 && l.record.sequence == error.at && l.record.prevHash != tip)
      && (error.Altered? <==>
           && l.Readable? && l.size < 0x10_0000 && l.record.sequence == error.at && l.record.prevHash == tip
           && l.record.hash != sha(ChainInput(l.record)))
  {
    hide ChainInput, Records;
  }

  // The scan accepts a file exactly when every line is legible and its records
  // number from one, each carrying the hash before it and its own.
  method Verify(sha: Sha, lines: seq<Line>) returns (r: Result<Report, Broken>)
    ensures r.Success? <==> Accepted(sha, lines)
    ensures r.Success? ==> r.value == Report(|Records(lines)|, Tip(Records(lines)))
    ensures r.Failure? ==> exists i :: 0 <= i < |lines| && FirstFault(sha, lines, i, r.error)
  {
    hide ChainInput, Legible, Chained, Records, Accepted;
    var report := 0;
    var expected := 1;
    var previous := GENESIS;
    NothingAccepted(sha);
    assert lines[..0] == [];
    for i := 0 to |lines|
      invariant Accepted(sha, lines[..i])
      invariant report == |Records(lines[..i])| == expected - 1
      invariant previous == Tip(Records(lines[..i]))
    {
      var line := lines[i];
      Advance(sha, lines, i);
      var fault := Fault(sha, line, expected, previous);
      if fault.Some? {
        AcceptedPrefix(sha, lines, i + 1);
        assert FirstFault(sha, lines, i, fault.value);
        return Failure(fault.value);
      }
      if line.Readable? {
        previous := line.record.hash;
        report := line.record.sequence;
        expected := expected + 1;
      }
    }
    assert lines[..|lines|] == lines;
    return Success(Report(report, previous));
  }

  lemma NothingAccepted(sha: Sha)
    ensures Accepted(sha, []) && Records([]) == []
  {}

  // ---- the tip determines the log ----

  // No two of these records have inputs that collide.
  ghost predicate CollisionFree(sha: Sha, rs: seq<Record>, ss: seq<Record>) {
    forall i, j :: 0 <= i < |rs| && 0 <= j < |ss| && sha(ChainInput(rs[i])) == sha(ChainInput(ss[j]))
      ==> ChainInput(rs[i]) == ChainInput(ss[j])
  }

  predicate AllShort(rs: seq<Record>) { forall i :: 0 <= i < |rs| ==> Short(rs[i]) }

  lemma {:induction false} TipDeterminesRecords(sha: Sha, rs: seq<Record>, ss: seq<Record>)
    requires HexHash(sha) && Chained(sha, rs) && Chained(sha, ss) && AllShort(rs) && AllShort(ss)
    requires CollisionFree(sha, rs, ss) && Tip(rs) == Tip(ss)
    ensures rs == ss
    decreases |rs|
  {
    hide ChainInput, Short, Parts, Chained, HexHash, CollisionFree;
    TipShape(sha, rs);
    TipShape(sha, ss);
    if rs != [] && ss != [] {
      var m, n := |rs| - 1, |ss| - 1;
      SameLast(sha, rs, ss);
      assert rs == rs[..m] + [rs[m]] && ss == ss[..n] + [ss[n]];
      ChainedOneMore(sha, rs[..m], rs[m]);
      ChainedOneMore(sha, ss[..n], ss[n]);
      CollisionFreePrefix(sha, rs, ss);
      TipDeterminesRecords(sha, rs[..m], ss[..n]);
    }
  }

  lemma TipShape(sha: Sha, rs: seq<Record>)
    requires HexHash(sha) && Chained(sha, rs)
    ensures PrevHash(Tip(rs)) && (Tip(rs) == GENESIS <==> rs == [])
  {
    hide ChainInput;
  }

  lemma CollisionFreePrefix(sha: Sha, rs: seq<Record>, ss: seq<Record>)
    requires rs != [] && ss != [] && CollisionFree(sha, rs, ss)
    ensures CollisionFree(sha, rs[..|rs| - 1], ss[..|ss| - 1])
  {
    hide ChainInput;
  }

  // Equal tips: the last records were hashed from the same bytes, so they agree.
  lemma SameLast(sha: Sha, rs: seq<Record>, ss: seq<Record>)
    requires rs != [] && ss != []
    requires HexHash(sha) && Chained(sha, rs) && Chained(sha, ss) && AllShort(rs) && AllShort(ss)
    requires CollisionFree(sha, rs, ss) && Tip(rs) == Tip(ss)
    ensures rs[|rs| - 1] == ss[|ss| - 1]
  {
    hide ChainInput, Short, Parts, HexHash, Chained;
    var m, n := |rs| - 1, |ss| - 1;
    assert rs == rs[..m] + [rs[m]] && ss == ss[..n] + [ss[n]];
    ChainedOneMore(sha, rs[..m], rs[m]);
    ChainedOneMore(sha, ss[..n], ss[n]);
    TipShape(sha, rs[..m]);
    TipShape(sha, ss[..n]);
    ChainInputInjective(rs[m], ss[n]);
  }

  lemma {:induction false} RecordsShort(lines: seq<Line>)
    requires Legible(lines) && forall i :: 0 <= i < |lines| ==> Decoded(lines[i])
    ensures AllShort(Records(lines))
    decreases |lines|
  {
    hide Parts;
    if lines != [] {
      var init := lines[..|lines| - 1];
      forall i | 0 <= i < |init| ensures init[i] == lines[i] {}
      RecordsShort(init);
      assert Decoded(lines[|lines| - 1]);
    }
  }

  // Two files that verify with the same last hash hold the same records.
  lemma TipDeterminesLog(sha: Sha, a: seq<Line>, b: seq<Line>)
    requires HexHash(sha) && Accepted(sha, a) && Accepted(sha, b)
    requires (forall i :: 0 <= i < |a| ==> Decoded(a[i])) && (forall i :: 0 <= i < |b| ==> Decoded(b[i]))
    requires CollisionFree(sha, Records(a), Records(b)) && Tip(Records(a)) == Tip(Records(b))
    ensures Records(a) == Records(b)
  {
    RecordsShort(a);
    RecordsShort(b);
    TipDeterminesRecords(sha, Records(a), Records(b));
  }
}
