/** Appending to the audit log, closing it, and opening it again. */
module AuditLog {
  import opened Wrappers
  import opened Encoding
  import opened Limits
  import opened Audit
  import opened Utf8

  const ALLOW: Text := [97, 108, 108, 111, 119]
  const DENY: Text := [100, 101, 110, 121]
  const ERROR: Text := [101, 114, 114, 111, 114]

  // ---- from an event to a line ----

  // Broken carries the report of the scan that refused the file.
  datatype LogError = NoOperation | NoResult | LogClosed | WriteFailed | ChainBroken(why: Broken)

  function ValidateEvent(e: Event): Option<LogError> {
    if e.operation == [] then Some(NoOperation)
    else if e.result != ALLOW && e.result != DENY && e.result != ERROR then Some(NoResult)
    else None
  }

  function NewRecord(sha: Sha, sequence: int, now: Text, e: Event, previous: Text): (r: Record)
    ensures r.hash == sha(ChainInput(r))
  {
    var r := Record(sequence, now, e, previous, []);
    r.(hash := sha(ChainInput(r)))
  }

  // The event as a reader of the line gets it back.
  function RepairedEvent(e: Event): Event {
    Event(Repaired(e.operation), Repaired(e.identity), Repaired(e.tenant), Repaired(e.path), e.version,
          Repaired(e.result), Repaired(e.policy), Repaired(e.rule), Repaired(e.requestId), Repaired(e.sourceIp))
  }

  function RepairedRecord(r: Record): Record {
    Record(r.sequence, Repaired(r.time), RepairedEvent(r.event), Repaired(r.prevHash), Repaired(r.hash))
  }

  predicate Printable(now: Text, e: Event) {
    && ValidUtf8(now) && ValidUtf8(e.operation) && ValidUtf8(e.identity) && ValidUtf8(e.tenant) && ValidUtf8(e.path)
    && ValidUtf8(e.result) && ValidUtf8(e.policy) && ValidUtf8(e.rule) && ValidUtf8(e.requestId)
    && ValidUtf8(e.sourceIp)
  }

  // ---- the file ----

  // The terminated lines, and what follows the last newline (Blank when nothing does).
  datatype Disk = Disk(lines: seq<Line>, tail: Line)

  function Scanned(d: Disk): seq<Line> { d.lines + [d.tail] }

  // Two records on one line decode to neither.
  function Joined(tail: Line, line: Line): Line {
    if tail.Blank? then line else if line.Blank? then tail else Garbage(tail.size + line.size)
  }

  // What the operating system made of one record: all of it, none of it, a part
  // without its newline, or all of it with the sync then failing.
  datatype Outcome = Stored | NotWritten | Torn(whole: bool, written: Positive) | NotSynced

  datatype Handle = Handle(sequence: int, previous: Text, closed: bool, stuck: bool)

  function AfterWrite(d: Disk, line: Line, outcome: Outcome): Disk
    requires line.Readable?
  {
    match outcome
    case NotWritten => d
    case Torn(whole, written) => d.(tail := Joined(d.tail, if whole then line else Garbage(written)))
    case _ => Disk(d.lines + [Joined(d.tail, line)], Blank)
  }

  // One call to Append; size is the length of the encoded line.
  function AfterAppend(sha: Sha, d: Disk, h: Handle, e: Event, now: Text, outcome: Outcome, size: nat)
      : (Disk, Handle, Option<LogError>) {
    if ValidateEvent(e).Some? then (d, h, ValidateEvent(e))
    else if h.closed then (d, h, Some(LogClosed))
    else if h.stuck then (d, h, Some(WriteFailed))
    else
      var r := NewRecord(sha, h.sequence + 1, now, e, h.previous);
      var line := Readable(RepairedRecord(r), size);
      var d' := AfterWrite(d, line, outcome);
      if outcome.Stored? then (d', h.(sequence := r.sequence, previous := r.hash), None)
      else (d', h.(stuck := !outcome.NotSynced?), Some(WriteFailed))
  }

  // What Open reads: a missing file starts an empty log, and a file that does not
  // verify is refused.
  function AfterOpen(sha: Sha, disk: Option<Disk>): Option<(Disk, Handle)> {
    if disk.None? then Some((Disk([], Blank), Handle(0, GENESIS, false, false)))
    else
      var d := disk.value;
      var rs := Records(Scanned(d));
      if Accepted(sha, Scanned(d)) then Some((d, Handle(|rs|, Tip(rs), false, false))) else None
  }

  class Log {
    const sha: Sha
    var disk: Disk
    var sequence: int
    var previous: Text
    var closed: bool
    var stuck: bool

    function Contents(): Handle
      reads this
    {
      Handle(sequence, previous, closed, stuck)
    }

    constructor (sha: Sha, disk: Disk, sequence: int, previous: Text)
      ensures this.sha == sha && this.disk == disk && Contents() == Handle(sequence, previous, false, false)
    {
      this.sha := sha;
      this.disk, this.sequence, this.previous, closed, stuck := disk, sequence, previous, false, false;
    }

    static method Open(sha: Sha, path: Option<Disk>) returns (r: Result<Log, LogError>)
      ensures r.Success? <==> AfterOpen(sha, path).Some?
      ensures r.Success? ==> fresh(r.value) && r.value.sha == sha
      ensures r.Success? ==> AfterOpen(sha, path) == Some((r.value.disk, r.value.Contents()))
      ensures r.Success? ==> !r.value.closed && !r.value.stuck
      ensures r.Success? && path.None? ==> r.value.disk == Disk([], Blank) && r.value.sequence == 0 && r.value.previous == []
      ensures (r.Success? && path.Some? ==>
        var rs := Records(path.value.lines + [path.value.tail]);
        r.value.disk == path.value && r.value.sequence == |rs| && r.value.previous == Tip(rs))
    {
      hide Accepted, Records;
      if path.None? {
        var log := new Log(sha, Disk([], Blank), 0, GENESIS);
        return Success(log);
      }
      var report := Verify(sha, Scanned(path.value));
      if report.Failure? {
        return Failure(ChainBroken(report.error));
      }
      var log := new Log(sha, path.value, report.value.records, report.value.lastHash);
      return Success(log);
    }

    method Append(e: Event, now: Text, outcome: Outcome, size: nat) returns (error: Option<LogError>)
      modifies this
      ensures (disk, Contents(), error) == AfterAppend(sha, old(disk), old(Contents()), e, now, outcome, size)
      // An event is refused for having no operation or an unknown result, and for
      // nothing else about it.
      ensures e.operation == [] <==> error == Some(NoOperation)
      ensures e.operation != [] && e.result !in {ALLOW, DENY, ERROR} <==> error == Some(NoResult)
      ensures e.operation != [] && e.result in {ALLOW, DENY, ERROR} && old(closed) <==> error == Some(LogClosed)
      ensures (error.None? <==>
        e.operation != [] && e.result in {ALLOW, DENY, ERROR} && !old(closed) && !old(stuck) && outcome.Stored?)
      ensures error.Some? ==> sequence == old(sequence) && previous == old(previous)
      ensures error.Some? && error != Some(WriteFailed) ==> disk == old(disk) && stuck == old(stuck)
      ensures old(stuck) || (error == Some(WriteFailed) && outcome.NotWritten?) ==> disk == old(disk)
      ensures (error.None? ==>
        && disk.tail.Blank? && |disk.lines| == |old(disk).lines| + 1 && disk.lines[..|old(disk).lines|] == old(disk).lines
        && sequence == old(sequence) + 1)
      ensures closed == old(closed)
    {
      hide ChainInput, Repaired;
      error := ValidateEvent(e);
      if error.Some? {
        return;
      }
      if closed {
        return Some(LogClosed);
      }
      var record := NewRecord(sha, sequence + 1, now, e, previous);
      var line := Readable(RepairedRecord(record), size);
      if stuck {
        return Some(WriteFailed);
      }
      disk := AfterWrite(disk, line, outcome);
      if outcome.NotWritten? || outcome.Torn? {
        stuck := true;
        return Some(WriteFailed);
      }
      if outcome.NotSynced? {
        return Some(WriteFailed);
      }
      sequence := record.sequence;
      previous := record.hash;
    }

    method Close()
      modifies this
      ensures disk == old(disk) && Contents() == old(Contents()).(closed := true)
    {
      if !closed {
        closed := true;
      }
    }
  }

  // Verify's answer is the sequence and hash that the handle carries.
  predicate Agrees(sha: Sha, d: Disk, h: Handle) {
    Accepted(sha, Scanned(d)) && h.sequence == |Records(Scanned(d))| && h.previous == Tip(Records(Scanned(d)))
  }

  lemma EmptyAgrees(sha: Sha)
    ensures Agrees(sha, Disk([], Blank), Handle(0, GENESIS, false, false))
    ensures Records(Scanned(Disk([], Blank))) == []
  {
    assert Scanned(Disk([], Blank)) == [Blank];
    assert [Blank][..0] == [];
  }

  // ---- when one append keeps the log and the file in step ----

  // A call the file can hold without being told apart from what was appended.
  predicate Faithful(d: Disk, e: Event, now: Text, size: nat) {
    d.tail.Blank? && Printable(now, e) && size < MAX_LINE
  }

  predicate Reaches(h: Handle, e: Event) { ValidateEvent(e).None? && !h.closed && !h.stuck }

  // The JSON text of a record is no shorter than any of its fields, and the
  // repaired record is not a second preimage of its hash.
  predicate Encodes(sha: Sha, r: Record, size: nat) {
    && (forall i :: 0 <= i < 12 ==> |Parts(r)[i]| <= size)
    && (sha(ChainInput(r)) == sha(ChainInput(RepairedRecord(r))) ==> ChainInput(r) == ChainInput(RepairedRecord(r)))
  }

  lemma {:induction false} HexIsUtf8(h: Text)
    requires forall i :: 0 <= i < |h| ==> HexDigit(h[i])
    ensures ValidUtf8(h)
    decreases |h|
  {
    if h != [] {
      assert HexDigit(h[0]);
      HexIsUtf8(h[1..]);
    }
  }

  lemma RepairedExactly(r: Record)
    requires PrevHash(r.prevHash) && Hex(r.hash)
    ensures RepairedRecord(r) == r <==> Printable(r.time, r.event)
  {
    hide Repaired, ValidUtf8;
    var e := r.event;
    HexIsUtf8(r.prevHash);
    HexIsUtf8(r.hash);
    RepairsOnlyInvalid(r.prevHash);
    RepairsOnlyInvalid(r.hash);
    RepairsOnlyInvalid(r.time);
    RepairsOnlyInvalid(e.operation);
    RepairsOnlyInvalid(e.identity);
    RepairsOnlyInvalid(e.tenant);
    RepairsOnlyInvalid(e.path);
    RepairsOnlyInvalid(e.result);
    RepairsOnlyInvalid(e.policy);
    RepairsOnlyInvalid(e.rule);
    RepairsOnlyInvalid(e.requestId);
    RepairsOnlyInvalid(e.sourceIp);
  }

  lemma RepairedShort(r: Record, size: nat)
    requires (forall i :: 0 <= i < 12 ==> |Parts(r)[i]| <= size) && size < MAX_LINE
    ensures Short(r) && Short(RepairedRecord(r))
  {
    hide Repaired;
    var e := r.event;
    var s := RepairedRecord(r);
    var p, q := Parts(r), Parts(s);
    assert p[0] == q[0] && p[6] == q[6];
    RepairedLength(r.time);
    RepairedLength(e.operation);
    RepairedLength(e.identity);
    RepairedLength(e.tenant);
    RepairedLength(e.path);
    RepairedLength(e.result);
    RepairedLength(e.policy);
    RepairedLength(e.rule);
    RepairedLength(e.requestId);
    RepairedLength(e.sourceIp);
    forall i | 0 <= i < 12 ensures |q[i]| <= 3 * |p[i]| {}
  }

  // The scan takes a record back, in its place, exactly when the line is short
  // enough and no field had to be repaired.
  lemma ReadBackExactly(sha: Sha, r: Record, size: nat)
    requires HexHash(sha) && PrevHash(r.prevHash) && r.hash == sha(ChainInput(r)) && Encodes(sha, r, size)
    ensures Fault(sha, Readable(RepairedRecord(r), size), r.sequence, r.prevHash).None?
      <==> Printable(r.time, r.event) && size < MAX_LINE
    ensures Printable(r.time, r.event) ==> RepairedRecord(r) == r
  {
    hide ChainInput, Repaired, Printable, Hex, Short, Parts, ValidUtf8;
    assert Hex(r.hash);
    RepairedExactly(r);
    var s := RepairedRecord(r);
    assert s.hash == r.hash && s.prevHash == r.prevHash by {
      HexRepaired(r.hash);
      HexRepaired(r.prevHash);
    }
    if size < MAX_LINE && s != r && sha(ChainInput(s)) == s.hash {
      RepairedShort(r, size);
      ChainInputInjective(r, s);
      assert false;
    }
  }

  lemma HexRepaired(h: Text)
    requires PrevHash(h)
    ensures Repaired(h) == h
  {
    hide ValidUtf8, Repaired;
    HexIsUtf8(h);
    RepairsOnlyInvalid(h);
  }

  // One more line in the file, whether or not a newline follows it.
  lemma OneLineMore(sha: Sha, lines: seq<Line>, line: Line, d: Disk)
    requires d == Disk(lines, line) || d == Disk(lines + [line], Blank)
    ensures Accepted(sha, Scanned(d)) <==>
      Accepted(sha, lines) && Fault(sha, line, |Records(lines)| + 1, Tip(Records(lines))).None?
    ensures Records(Scanned(d)) == Records(lines) + if line.Readable? then [line.record] else []
  {
    hide ChainInput, Accepted, Records, Legible, Chained;
    AcceptedOneMore(sha, lines, line);
    if d.tail.Blank? && d.lines == lines + [line] {
      AcceptedOneMore(sha, lines + [line], Blank);
      assert Records(lines + [line]) + [] == Records(lines + [line]);
    }
  }

  // After any append that gets as far as the file, Verify still answers with the
  // handle's sequence and hash exactly when nothing was written, or when all of
  // it was, on a line of its own that the scan reads back unchanged.
  lemma AppendAgreesExactly(sha: Sha, d: Disk, h: Handle, e: Event, now: Text, outcome: Outcome, size: nat)
    requires Agrees(sha, d, h) && Reaches(h, e) && HexHash(sha)
    requires Encodes(sha, NewRecord(sha, h.sequence + 1, now, e, h.previous), size)
    ensures var (d', h', _) := AfterAppend(sha, d, h, e, now, outcome, size);
      Agrees(sha, d', h') <==> outcome.NotWritten? || (outcome.Stored? && Faithful(d, e, now, size))
  {
    hide ChainInput, Accepted, Records, RepairedRecord, HexHash, Encodes, Printable, Fault, ValidateEvent, Tip;
    var r := NewRecord(sha, h.sequence + 1, now, e, h.previous);
    var line := Readable(RepairedRecord(r), size);
    OneLineMore(sha, d.lines, d.tail, d);
    TipPrevHash(sha, Scanned(d));
    ReadBackExactly(sha, r, size);
    var piece := if outcome.Torn? && !outcome.whole then Garbage(outcome.written) else line;
    var d' := AfterWrite(d, line, outcome);
    if !outcome.NotWritten? {
      var joined := Joined(d.tail, piece);
      OneLineMore(sha, d.lines, joined, d');
      GarbageFault(sha, joined, |Records(d.lines)| + 1, Tip(Records(d.lines)));
      TipLast(Records(d.lines), line.record);
      assert Records(d.lines) + [] == Records(d.lines);
    }
  }

  lemma TipLast(rs: seq<Record>, r: Record)
    ensures Tip(rs + [r]) == r.hash
  {}

  lemma TipPrevHash(sha: Sha, lines: seq<Line>)
    requires HexHash(sha) && Accepted(sha, lines)
    ensures PrevHash(Tip(Records(lines)))
  {
    hide Records, Hex, Chained;
    TipShape(sha, Records(lines));
  }

  lemma GarbageFault(sha: Sha, line: Line, expected: int, previous: Text)
    ensures line.Garbage? ==> Fault(sha, line, expected, previous).Some?
  {}

  // ---- whole runs ----

  datatype World = World(disk: Option<Disk>, log: Option<Handle>)

  // Opening takes the place of the handle before it, if there was one.
  datatype Step = Opening | Appending(event: Event, now: Text, outcome: Outcome, size: nat) | Closing

  function Next(sha: Sha, w: World, s: Step): World {
    match s
    case Opening =>
      var opening := AfterOpen(sha, w.disk);
      if opening.None? then w.(log := None) else World(Some(opening.value.0), Some(opening.value.1))
    case Closing =>
      if w.log.None? then w else w.(log := Some(w.log.value.(closed := true)))
    case Appending(e, now, outcome, size) =>
      if w.log.None? || w.disk.None? then w
      else
        var (d, h, _) := AfterAppend(sha, w.disk.value, w.log.value, e, now, outcome, size);
        World(Some(d), Some(h))
  }

  function Run(sha: Sha, w: World, steps: seq<Step>): World
    decreases |steps|
  {
    if steps == [] then w else Run(sha, Next(sha, w, steps[0]), steps[1..])
  }

  // The event of a step whose Append returned no error.
  function Acknowledged(sha: Sha, w: World, s: Step): seq<(Text, Event)> {
    if s.Appending? && w.log.Some? && w.disk.Some?
       && AfterAppend(sha, w.disk.value, w.log.value, s.event, s.now, s.outcome, s.size).2.None?
    then [(s.now, s.event)] else []
  }

  function AllAcknowledged(sha: Sha, w: World, steps: seq<Step>): seq<(Text, Event)>
    decreases |steps|
  {
    if steps == [] then [] else Acknowledged(sha, w, steps[0]) + AllAcknowledged(sha, Next(sha, w, steps[0]), steps[1..])
  }

  function Written(rs: seq<Record>): (es: seq<(Text, Event)>)
    ensures |es| == |rs|
    ensures forall i :: 0 <= i < |rs| ==> es[i] == (rs[i].time, rs[i].event)
  {
    seq(|rs|, i requires 0 <= i < |rs| => (rs[i].time, rs[i].event))
  }

  // The events the file records.
  function Kept(w: World): seq<(Text, Event)> {
    if w.disk.None? then [] else Written(Records(Scanned(w.disk.value)))
  }

  // No append that reaches the file is torn, unsynced or unfaithful.
  predicate Harmless(sha: Sha, w: World, s: Step) {
    s.Appending? && w.log.Some? && Reaches(w.log.value, s.event) ==>
      && (s.outcome.NotWritten? || (s.outcome.Stored? && Printable(s.now, s.event) && s.size < MAX_LINE))
      && Encodes(sha, NewRecord(sha, w.log.value.sequence + 1, s.now, s.event, w.log.value.previous), s.size)
  }

  predicate HarmlessRun(sha: Sha, w: World, steps: seq<Step>)
    decreases |steps|
  {
    steps == [] || (Harmless(sha, w, steps[0]) && HarmlessRun(sha, Next(sha, w, steps[0]), steps[1..]))
  }

  // The file verifies, and any handle on it carries what Verify answers.
  predicate InStep(sha: Sha, w: World) {
    && (w.disk.Some? ==> w.disk.value.tail.Blank? && Accepted(sha, Scanned(w.disk.value)))
    && (w.log.Some? ==> w.disk.Some? && Agrees(sha, w.disk.value, w.log.value))
  }

  lemma OpenKeepsStep(sha: Sha, w: World)
    requires InStep(sha, w)
    ensures AfterOpen(sha, w.disk).Some? && InStep(sha, Next(sha, w, Opening)) && Kept(Next(sha, w, Opening)) == Kept(w)
  {
    hide Accepted, Records;
    EmptyAgrees(sha);
  }

  lemma AppendKeepsStep(sha: Sha, w: World, s: Step)
    requires s.Appending? && InStep(sha, w) && HexHash(sha) && Harmless(sha, w, s)
    ensures InStep(sha, Next(sha, w, s)) && Kept(Next(sha, w, s)) == Kept(w) + Acknowledged(sha, w, s)
  {
    hide Accepted, Records, HexHash, Encodes, Printable, ChainInput, Repaired, ValidateEvent;
    if w.log.Some? && Reaches(w.log.value, s.event) {
      var d, h := w.disk.value, w.log.value;
      AppendAgreesExactly(sha, d, h, s.event, s.now, s.outcome, s.size);
      if s.outcome.Stored? {
        StoredIsKept(sha, d, h, s.event, s.now, s.size);
      }
    }
  }

  lemma StoredIsKept(sha: Sha, d: Disk, h: Handle, e: Event, now: Text, size: nat)
    requires Agrees(sha, d, h) && HexHash(sha) && Reaches(h, e) && Faithful(d, e, now, size)
    requires Encodes(sha, NewRecord(sha, h.sequence + 1, now, e, h.previous), size)
    ensures var (d', _, error) := AfterAppend(sha, d, h, e, now, Stored, size);
      error.None? && d'.tail.Blank? && Written(Records(Scanned(d'))) == Written(Records(Scanned(d))) + [(now, e)]
  {
    hide ChainInput, Accepted, Records, RepairedRecord, HexHash, Encodes, Printable, ValidateEvent, Tip;
    var r := NewRecord(sha, h.sequence + 1, now, e, h.previous);
    TipPrevHash(sha, Scanned(d));
    ReadBackExactly(sha, r, size);
    OneLineMore(sha, d.lines, Blank, d);
    assert Records(d.lines) + [] == Records(d.lines);
    OneLineMore(sha, d.lines, Readable(RepairedRecord(r), size), AfterWrite(d, Readable(RepairedRecord(r), size), Stored));
  }

  // From a log in step, however often it is closed and opened again, the file
  // goes on to hold exactly the acknowledged events, in order.
  lemma {:induction false} RunKeepsAcknowledged(sha: Sha, w: World, steps: seq<Step>)
    requires InStep(sha, w) && HexHash(sha) && HarmlessRun(sha, w, steps)
    ensures InStep(sha, Run(sha, w, steps))
    ensures AfterOpen(sha, Run(sha, w, steps).disk).Some?
    ensures Kept(Run(sha, w, steps)) == Kept(w) + AllAcknowledged(sha, w, steps)
    decreases |steps|
  {
    hide InStep, Next, HexHash, Harmless, Kept, Acknowledged, AfterOpen;
    OpenKeepsStep(sha, w);
    if steps == [] {
      assert Kept(w) + [] == Kept(w);
    } else {
      var s := steps[0];
      StepKeeps(sha, w, s);
      RunKeepsAcknowledged(sha, Next(sha, w, s), steps[1..]);
    }
  }

  lemma StepKeeps(sha: Sha, w: World, s: Step)
    requires InStep(sha, w) && HexHash(sha) && Harmless(sha, w, s)
    ensures InStep(sha, Next(sha, w, s)) && Kept(Next(sha, w, s)) == Kept(w) + Acknowledged(sha, w, s)
  {
    hide Accepted, Records, HexHash, AfterAppend, AfterOpen;
    match s
    case Opening => OpenKeepsStep(sha, w);
    case Closing =>
    case Appending(_, _, _, _) => AppendKeepsStep(sha, w, s);
  }

  // ---- which events are recorded ----

  // On an open log the record of an event that is stored holds exactly the event, its
  // time and its place; an event with no operation or no known result leaves no trace.
  lemma StoredExactly(sha: Sha, d: Disk, h: Handle, e: Event, now: Text, size: nat)
    requires HexHash(sha) && PrevHash(h.previous) && d.tail.Blank? && !h.closed && !h.stuck && Printable(now, e)
    ensures var (d', h', error) := AfterAppend(sha, d, h, e, now, Stored, size);
      var hash := sha(ChainInput(Record(h.sequence + 1, now, e, h.previous, [])));
      if e.operation != [] && e.result in {ALLOW, DENY, ERROR} then
        && error.None?
        && d' == Disk(d.lines + [Readable(Record(h.sequence + 1, now, e, h.previous, hash), size)], Blank)
        && h' == h.(sequence := h.sequence + 1, previous := hash)
      else error.Some? && d' == d && h' == h
  {
    hide ChainInput, Repaired, Printable, Hex;
    var r := NewRecord(sha, h.sequence + 1, now, e, h.previous);
    assert Hex(r.hash);
    RepairedExactly(r);
  }

  // The events of a run that the log is there for.
  function Loggable(steps: seq<Step>): seq<(Text, Event)>
    requires forall i :: 0 <= i < |steps| ==> steps[i].Appending?
  {
    if steps == [] then [] else LoggableOne(steps[0].event, steps[0].now) + Loggable(steps[1..])
  }

  function LoggableOne(e: Event, now: Text): seq<(Text, Event)> {
    if e.operation != [] && e.result in {ALLOW, DENY, ERROR} then [(now, e)] else []
  }

  lemma AcknowledgedExactly(sha: Sha, w: World, s: Step)
    requires s.Appending? && w.log.Some? && w.disk.Some?
    ensures Acknowledged(sha, w, s) ==
      if s.event.operation != [] && s.event.result in {ALLOW, DENY, ERROR} && !w.log.value.closed && !w.log.value.stuck
         && s.outcome.Stored?
      then [(s.now, s.event)] else []
    ensures s.outcome.Stored? && !w.log.value.closed && !w.log.value.stuck ==>
      Acknowledged(sha, w, s) == LoggableOne(s.event, s.now)
    ensures s.outcome.Stored? ==>
      var w' := Next(sha, w, s);
      w'.log.Some? && w'.disk.Some? && w'.log.value.closed == w.log.value.closed && w'.log.value.stuck == w.log.value.stuck
  {
    hide NewRecord, RepairedRecord, AfterWrite;
  }

  predicate OnlyStored(steps: seq<Step>) {
    forall i :: 0 <= i < |steps| ==> steps[i].Appending? && steps[i].outcome.Stored?
  }

  predicate Listening(w: World) { w.disk.Some? && w.log.Some? && !w.log.value.closed && !w.log.value.stuck }

  lemma {:induction false} AllAcknowledgedExactly(sha: Sha, w: World, steps: seq<Step>)
    requires Listening(w) && OnlyStored(steps)
    ensures AllAcknowledged(sha, w, steps) == Loggable(steps)
    decreases |steps|
  {
    hide Next, Acknowledged, LoggableOne, Listening;
    if steps != [] {
      OneAcknowledged(sha, w, steps[0]);
      AllAcknowledgedExactly(sha, Next(sha, w, steps[0]), steps[1..]);
    }
  }

  lemma OneAcknowledged(sha: Sha, w: World, s: Step)
    requires Listening(w) && s.Appending? && s.outcome.Stored?
    ensures Listening(Next(sha, w, s)) && Acknowledged(sha, w, s) == LoggableOne(s.event, s.now)
  {
    hide Next, Acknowledged;
    AcknowledgedExactly(sha, w, s);
  }

  // While every append is stored, the file of an open log comes to hold every event
  // with an operation and a known result, in order, and no other.
  lemma EveryEventRecorded(sha: Sha, w: World, steps: seq<Step>)
    requires InStep(sha, w) && HexHash(sha) && HarmlessRun(sha, w, steps)
    requires Listening(w) && OnlyStored(steps)
    ensures Kept(Run(sha, w, steps)) == Kept(w) + Loggable(steps)
  {
    hide InStep, HexHash, HarmlessRun, Run, Kept, Listening, AllAcknowledged, Loggable;
    RunKeepsAcknowledged(sha, w, steps);
    AllAcknowledgedExactly(sha, w, steps);
  }

  // ---- once closed ----

  // A log that has been closed writes nothing until it is opened again, and answers
  // every event it would have taken with that.
  lemma {:induction false} ClosedWritesNothing(sha: Sha, w: World, steps: seq<Step>)
    requires w.log.Some? && forall i :: 0 <= i < |steps| ==> !steps[i].Opening?
    ensures var end := Run(sha, Next(sha, w, Closing), steps);
      && end.disk == w.disk && end.log == Some(w.log.value.(closed := true))
      && forall d: Disk, e: Event, now: Text, outcome: Outcome, size: nat :: e.operation != [] && e.result in {ALLOW, DENY, ERROR} ==>
           AfterAppend(sha, d, end.log.value, e, now, outcome, size).2 == Some(LogClosed)
    decreases |steps|
  {
    hide NewRecord, RepairedRecord, AfterWrite;
    if steps != [] {
      var closed := Next(sha, w, Closing);
      var next := Next(sha, closed, steps[0]);
      assert next == closed && Next(sha, closed, Closing) == closed;
      ClosedWritesNothing(sha, closed, steps[1..]);
    }
  }

  // ---- once broken ----

  lemma WriteKeepsBroken(sha: Sha, d: Disk, line: Line, outcome: Outcome)
    requires line.Readable? && !Accepted(sha, Scanned(d))
    ensures !Accepted(sha, Scanned(AfterWrite(d, line, outcome)))
  {
    hide Accepted, Records, Fault;
    OneLineMore(sha, d.lines, d.tail, d);
    if !outcome.NotWritten? {
      var joined := Joined(d.tail, if outcome.Torn? && !outcome.whole then Garbage(outcome.written) else line);
      OneLineMore(sha, d.lines, joined, AfterWrite(d, line, outcome));
      GarbageFault(sha, joined, |Records(d.lines)| + 1, Tip(Records(d.lines)));
      BlankFault(sha, |Records(d.lines)| + 1, Tip(Records(d.lines)));
    }
  }

  lemma BlankFault(sha: Sha, expected: int, previous: Text)
    ensures Fault(sha, Blank, expected, previous).None?
  {}

  // A file that fails to verify never verifies again, whatever is appended to it.
  lemma {:induction false} BrokenStaysBroken(sha: Sha, w: World, steps: seq<Step>)
    requires w.disk.Some? && !Accepted(sha, Scanned(w.disk.value))
    ensures Run(sha, w, steps).disk.Some? && !Accepted(sha, Scanned(Run(sha, w, steps).disk.value))
    decreases |steps|
  {
    hide Accepted, Scanned, AfterWrite, RepairedRecord, ValidateEvent, NewRecord;
    if steps != [] {
      var s := steps[0];
      if s.Appending? && w.log.Some? {
        var r := NewRecord(sha, w.log.value.sequence + 1, s.now, s.event, w.log.value.previous);
        WriteKeepsBroken(sha, w.disk.value, Readable(RepairedRecord(r), s.size), s.outcome);
      }
      BrokenStaysBroken(sha, Next(sha, w, s), steps[1..]);
    }
  }

  // A record whose sync failed is in the file all the same, so the next append
  // that is stored repeats its number, and the log does not open again.
  lemma UnsyncedAppendBreaksLog(
      sha: Sha, d: Disk, h: Handle, e: Event, now: Text, size: nat, e': Event, now': Text, size': nat)
    requires Agrees(sha, d, h) && Reaches(h, e) && Reaches(h, e')
    ensures var (d1, h1, _) := AfterAppend(sha, d, h, e, now, NotSynced, size);
      var (d2, _, error) := AfterAppend(sha, d1, h1, e', now', Stored, size');
      error.None? && AfterOpen(sha, Some(d2)).None?
  {
    hide Accepted, Records, Fault, ChainInput, ValidateEvent, Repaired, Tip;
    var r := NewRecord(sha, h.sequence + 1, now, e, h.previous);
    var line := Readable(RepairedRecord(r), size);
    var d1 := AfterWrite(d, line, NotSynced);
    var r' := NewRecord(sha, h.sequence + 1, now', e', h.previous);
    var line' := Readable(RepairedRecord(r'), size');
    OneLineMore(sha, d.lines, d.tail, d);
    OneLineMore(sha, d.lines, Joined(d.tail, line), d1);
    GarbageFault(sha, Joined(d.tail, line), |Records(d.lines)| + 1, Tip(Records(d.lines)));
    AcceptedOneMore(sha, d1.lines, Blank);
    OneLineMore(sha, d1.lines, line', AfterWrite(d1, line', Stored));
    assert Records(d.lines) + [] == Records(d.lines);
    assert Records(d1.lines) + [] == Records(d1.lines);
    BlankFault(sha, |Records(d1.lines)| + 1, Tip(Records(d1.lines)));
    RepeatFault(sha, line', |Records(d1.lines)| + 1, Tip(Records(d1.lines)));
  }

  lemma RepeatFault(sha: Sha, line: Line, expected: int, previous: Text)
    requires line.Readable?
    ensures line.record.sequence != expected ==> Fault(sha, line, expected, previous).Some?
  {}
}
