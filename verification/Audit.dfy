/** The append-only NDJSON ledger file and its locked read-decide-append transaction. */
module Audit {
  import opened Basics
  import opened Json
  import Utf8

  const MAX_TRANSACTION_BYTES: nat := 64 * 1024 * 1024
  const MAX_AUDIT_RECORD_BYTES: nat := 64 * 1024
  const NEWLINE: Byte := 10
  const RETURN: Byte := 13

  /** A JSON object as the service builds it. */
  type Record = v: Value | v.Obj? && NoFloat(v) witness Obj([])

  /** What a decide callback does: raise, or hand over a record and a value. */
  datatype Verdict<+T> = Raise | Decide(record: Record, value: T)

  datatype Failure = Unavailable

  /**
   What the operating system does during one transaction. `safe`: the file opens as a regular file
   of mode 0600 and locks. `readWhole`: pread returns every byte. `writes`: the results of the successive
   os.write calls; a missing or non-positive one is an error, or the crash of the process.
   `syncs`: fsync succeeds.
  */
  datatype System = System(safe: bool, readWhole: bool, writes: seq<int>, syncs: bool)

  // Reading

  function LineEnd(raw: seq<Byte>): (k: nat)
    ensures k <= |raw|
    ensures forall i :: 0 <= i < k ==> raw[i] != NEWLINE && raw[i] != RETURN
    ensures k < |raw| ==> raw[k] == NEWLINE || raw[k] == RETURN
  {
    if raw == [] || raw[0] == NEWLINE || raw[0] == RETURN then 0 else 1 + LineEnd(raw[1..])
  }

  /** Where the line after the first one starts. */
  function NextLine(raw: seq<Byte>): (k: nat)
    requires LineEnd(raw) < |raw|
    ensures LineEnd(raw) < k <= |raw|
  {
    var k := LineEnd(raw);
    if raw[k] == RETURN && k + 1 < |raw| && raw[k + 1] == NEWLINE then k + 2 else k + 1
  }

  /** bytes.splitlines: lines end at \n, \r or \r\n. */
  function SplitLines(raw: seq<Byte>): seq<seq<Byte>>
    decreases |raw|
  {
    if raw == [] then []
    else if LineEnd(raw) == |raw| then [raw]
    else [raw[..LineEnd(raw)]] + SplitLines(raw[NextLine(raw)..])
  }

  /** One ledger line: a JSON object of bounded length. */
  function ParseLine(line: seq<Byte>): Option<Value> {
    if |line| > MAX_AUDIT_RECORD_BYTES then None
    else
      match Utf8.Decode(line)
      case None => None
      case Some(text) =>
        match Load(text)
        case None => None
        case Some(v) => if v.Obj? then Some(v) else None
  }

  function ParseLines(lines: seq<seq<Byte>>): (r: Option<seq<Value>>)
    ensures r.Some? ==> |r.value| == |lines|
  {
    if lines == [] then Some([])
    else
      match (ParseLines(lines[..|lines| - 1]), ParseLine(lines[|lines| - 1]))
      case (Some(vs), Some(v)) => Some(vs + [v])
      case _ => None
  }

  /** The records of a ledger file; None where reading it raises. */
  function ReadLedger(raw: seq<Byte>): Option<seq<Value>> {
    if |raw| > MAX_TRANSACTION_BYTES || (raw != [] && raw[|raw| - 1] != NEWLINE) then None
    else ParseLines(SplitLines(raw))
  }

  /** A line of at most 65 536 bytes that is the UTF-8 text of a JSON object. */
  predicate IsRecord(line: seq<Byte>, v: Value) {
    && |line| <= 65_536 && v.Obj?
    && Utf8.Decode(line).Some? && Load(Utf8.Decode(line).value) == Some(v)
  }

  lemma {:induction false} ParsesExactly(lines: seq<seq<Byte>>, records: seq<Value>)
    ensures ParseLines(lines) == Some(records) <==>
              |records| == |lines| && forall i :: 0 <= i < |lines| ==> IsRecord(lines[i], records[i])
    decreases |lines|
  {
    hide Load, Utf8.Decode;
    if lines != [] && |records| == |lines| {
      var last := |lines| - 1;
      ParsesExactly(lines[..last], records[..last]);
      assert records == records[..last] + [records[last]];
    }
  }

  /** Any file is read, as `records`, exactly when it is at most 64 MiB, its last line is ended, and its lines are those. */
  lemma ReadsExactly(raw: seq<Byte>, records: seq<Value>)
    ensures ReadLedger(raw) == Some(records) <==>
              && |raw| <= 67_108_864 && (raw != [] ==> raw[|raw| - 1] == 10)
              && |records| == |SplitLines(raw)|
              && forall i :: 0 <= i < |records| ==> IsRecord(SplitLines(raw)[i], records[i])
  {
    hide SplitLines, ParseLines, IsRecord;
    ParsesExactly(SplitLines(raw), records);
  }

  // Writing

  /** The bytes a record is stored as. */
  function Line(r: Record): (b: seq<Byte>)
    ensures |b| >= 2
  {
    DumpIsPlain(r);
    Ascii(Dump(r)) + [NEWLINE]
  }

  /** How many of `n` bytes a series of write results gets written. */
  function Written(writes: seq<int>, n: nat): (k: nat)
    ensures k <= n
    decreases n
  {
    if n == 0 || writes == [] || writes[0] <= 0 then 0
    else if writes[0] >= n then n
    else writes[0] + Written(writes[1..], n - writes[0])
  }

  /** What one transaction returns and leaves in the file. */
  function Transaction<T>(file: seq<Byte>, decide: seq<Value> -> Verdict<T>, system: System):
      (Result<T, Failure>, seq<Byte>)
  {
    if !system.safe || !system.readWhole || ReadLedger(file).None? then (Err(Unavailable), file)
    else
      match decide(ReadLedger(file).value)
      case Raise => (Err(Unavailable), file)
      case Decide(record, value) =>
        var payload := Line(record);
        if |payload| > MAX_AUDIT_RECORD_BYTES || |file| + |payload| > MAX_TRANSACTION_BYTES then
          (Err(Unavailable), file)
        else
          var k := Written(system.writes, |payload|);
          (if k == |payload| && system.syncs then Ok(value) else Err(Unavailable), file + payload[..k])
  }

  class AuditLog {
    var file: seq<Byte>

    constructor ()
      ensures file == []
    {
      file := [];
    }

    /** transact, while the lock is held. */
    method Transact<T>(decide: seq<Value> -> Verdict<T>, system: System) returns (r: Result<T, Failure>)
      modifies this
      ensures (r, file) == Transaction(old(file), decide, system)
    {
      hide ParseLine, SplitLines, Line, LineEnd, NextLine, Utf8.Decode, Load;
      if !system.safe || |file| > MAX_TRANSACTION_BYTES || !system.readWhole {
        return Err(Unavailable);
      }
      var raw := file;
      if raw != [] && raw[|raw| - 1] != NEWLINE {
        return Err(Unavailable);
      }
      var lines := SplitLines(raw);
      var records: seq<Value> := [];
      for i := 0 to |lines|
        invariant ParseLines(lines[..i]) == Some(records)
        invariant file == raw
      {
        assert lines[..i + 1][..i] == lines[..i];
        var parsed := ParseLine(lines[i]);
        if parsed.None? {
          BadLine(lines, i);
          return Err(Unavailable);
        }
        records := records + [parsed.value];
      }
      assert lines[..|lines|] == lines;

      var decision := decide(records);
      if decision.Raise? {
        return Err(Unavailable);
      }
      var payload := Line(decision.record);
      if |payload| > MAX_AUDIT_RECORD_BYTES || |raw| + |payload| > MAX_TRANSACTION_BYTES {
        return Err(Unavailable);
      }
      var view := payload;
      var writes := system.writes;
      assert payload[..0] == [];
      while view != []
        invariant |view| <= |payload| && view == payload[|payload| - |view|..]
        invariant file == raw + payload[..|payload| - |view|]
        invariant Written(system.writes, |payload|) == |payload| - |view| + Written(writes, |view|)
        decreases |view|
      {
        if writes == [] || writes[0] <= 0 {
          return Err(Unavailable);
        }
        var n := if writes[0] < |view| then writes[0] else |view|;
        file := file + view[..n];
        view := view[n..];
        writes := writes[1..];
      }
      assert payload[..|payload|] == payload;
      if !system.syncs {
        return Err(Unavailable);
      }
      return Ok(decision.value);
    }
  }

  lemma {:induction false} BadLine(lines: seq<seq<Byte>>, i: nat)
    requires i < |lines| && ParseLine(lines[i]).None?
    ensures ParseLines(lines).None?
    decreases |lines|
  {
    if i < |lines| - 1 {
      BadLine(lines[..|lines| - 1], i);
    }
  }

  // The file as records

  /**
   A ledger file seen as records: whole lines, then what a cut-off append left of one more.
  */
  datatype Ledger = Ledger(records: seq<Record>, tail: seq<Byte>)

  function Lines(records: seq<Record>): seq<Byte> {
    if records == [] then [] else Lines(records[..|records| - 1]) + Line(records[|records| - 1])
  }

  function Bytes(l: Ledger): seq<Byte> { Lines(l.records) + l.tail }

  /** A non-empty proper prefix of some record's line. */
  ghost predicate Torn(tail: seq<Byte>) {
    exists r: Record :: tail != [] && |tail| < |Line(r)| && tail == Line(r)[..|tail|]
  }

  /** Whole records that each fit the bound, and at most one cut-off one after them. */
  ghost predicate WellFormed(l: Ledger) {
    && (forall i :: 0 <= i < |l.records| ==> |Line(l.records[i])| <= MAX_AUDIT_RECORD_BYTES)
    && |Bytes(l)| <= MAX_TRANSACTION_BYTES
    && (l.tail == [] || Torn(l.tail))
  }

  /** The transaction on records: a torn ledger refuses; otherwise the record goes in whole or torn. */
  function Step<T>(l: Ledger, decide: seq<Value> -> Verdict<T>, system: System): (Result<T, Failure>, Ledger) {
    if !system.safe || !system.readWhole || l.tail != [] then (Err(Unavailable), l)
    else
      match decide(l.records)
      case Raise => (Err(Unavailable), l)
      case Decide(record, value) =>
        var payload := Line(record);
        if |payload| > MAX_AUDIT_RECORD_BYTES || |Bytes(l)| + |payload| > MAX_TRANSACTION_BYTES then
          (Err(Unavailable), l)
        else
          var k := Written(system.writes, |payload|);
          if k < |payload| then (Err(Unavailable), l.(tail := payload[..k]))
          else (if system.syncs then Ok(value) else Err(Unavailable), l.(records := l.records + [record]))
  }

  lemma LineIsOneLine(r: Record)
    ensures forall i :: 0 <= i < |Line(r)| - 1 ==> Line(r)[i] != NEWLINE && Line(r)[i] != RETURN
    ensures Line(r)[|Line(r)| - 1] == NEWLINE
    ensures |Line(r)| <= MAX_AUDIT_RECORD_BYTES ==> ParseLine(Line(r)[..|Line(r)| - 1]) == Some(r)
  {
    hide Dump;
    DumpIsPlain(r);
    var text := Dump(r);
    assert Line(r)[..|Line(r)| - 1] == Ascii(text);
    Utf8.EncodeAscii(text);
    Utf8.RoundTrip(text);
    Json.RoundTrip(r);
  }

  /** A torn tail never ends in a newline. */
  lemma TornHasNoNewline(tail: seq<Byte>)
    requires Torn(tail)
    ensures tail[|tail| - 1] != NEWLINE
  {
    var r: Record :| tail != [] && |tail| < |Line(r)| && tail == Line(r)[..|tail|];
    LineIsOneLine(r);
  }

  lemma NoLines()
    ensures SplitLines([]) == []
  {
  }

  /** The first line of a text that ends in a newline does not depend on a line after it. */
  lemma FirstLine(raw: seq<Byte>, last: seq<Byte>)
    requires raw != [] && raw[|raw| - 1] == NEWLINE
    ensures LineEnd(raw) < |raw| && LineEnd(raw + last) == LineEnd(raw)
    ensures NextLine(raw + last) == NextLine(raw)
  {
    var whole := raw + last;
    assert forall i :: 0 <= i < |raw| ==> whole[i] == raw[i];
  }

  lemma SplitOff(raw: seq<Byte>)
    requires LineEnd(raw) < |raw|
    ensures SplitLines(raw) == [raw[..LineEnd(raw)]] + SplitLines(raw[NextLine(raw)..])
  {
    hide LineEnd, NextLine;
  }

  lemma OneLine(line: seq<Byte>)
    requires forall i :: 0 <= i < |line| ==> line[i] != NEWLINE && line[i] != RETURN
    ensures SplitLines(line + [NEWLINE]) == [line]
  {
    hide LineEnd, SplitLines;
    var last := line + [NEWLINE];
    assert forall i :: 0 <= i < |line| ==> last[i] == line[i];
    assert last[|line|] == NEWLINE;
    assert LineEnd(last) == |line|;
    SplitOff(last);
    NoLines();
    assert last[|line| + 1..] == [];
    assert last[..|line|] == line;
  }

  lemma {:induction false} SplitConcat(raw: seq<Byte>, line: seq<Byte>)
    requires raw != [] ==> raw[|raw| - 1] == NEWLINE
    requires forall i :: 0 <= i < |line| ==> line[i] != NEWLINE && line[i] != RETURN
    ensures SplitLines(raw + (line + [NEWLINE])) == SplitLines(raw) + [line]
    decreases |raw|
  {
    hide LineEnd, NextLine, SplitLines;
    var last := line + [NEWLINE];
    var whole := raw + last;
    if raw == [] {
      assert whole == last;
      NoLines();
      OneLine(line);
    } else {
      FirstLine(raw, last);
      SplitOff(raw);
      SplitOff(whole);
      var rest := raw[NextLine(raw)..];
      assert rest != [] ==> rest[|rest| - 1] == raw[|raw| - 1];
      assert whole[..LineEnd(raw)] == raw[..LineEnd(raw)];
      assert whole[NextLine(raw)..] == rest + last;
      SplitConcat(rest, line);
    }
  }

  /** What was written completely is what the next transaction reads. */
  lemma {:induction false} ReadsBack(records: seq<Record>)
    requires forall i :: 0 <= i < |records| ==> |Line(records[i])| <= MAX_AUDIT_RECORD_BYTES
    ensures Lines(records) != [] ==> Lines(records)[|Lines(records)| - 1] == NEWLINE
    ensures ParseLines(SplitLines(Lines(records))) == Some(records)
  {
    hide ParseLine, Line, SplitLines, LineEnd, NextLine;
    if records == [] {
      NoLines();
    } else {
      var most, r := records[..|records| - 1], records[|records| - 1];
      ReadsBack(most);
      LineIsOneLine(r);
      var line := Line(r)[..|Line(r)| - 1];
      assert Line(r) == line + [NEWLINE];
      SplitConcat(Lines(most), line);
      ParsesMore(SplitLines(Lines(most)), most, line, r);
      assert records == most + [r];
    }
  }

  lemma ParsesMore(lines: seq<seq<Byte>>, values: seq<Value>, line: seq<Byte>, v: Value)
    requires ParseLines(lines) == Some(values) && ParseLine(line) == Some(v)
    ensures ParseLines(lines + [line]) == Some(values + [v])
  {
    hide ParseLine;
    assert (lines + [line])[..|lines|] == lines;
  }

  /** A well-formed ledger reads as its records, and not at all once an append was cut off. */
  lemma ReadsWellFormed(l: Ledger)
    requires WellFormed(l)
    ensures l.tail == [] ==> ReadLedger(Bytes(l)) == Some(l.records)
    ensures l.tail != [] ==> ReadLedger(Bytes(l)) == None
  {
    hide SplitLines, ParseLines, Line, Torn, Lines;
    ReadsBack(l.records);
    if l.tail != [] {
      TornHasNoNewline(l.tail);
      assert Bytes(l)[|Bytes(l)| - 1] == l.tail[|l.tail| - 1];
    } else {
      assert Bytes(l) == Lines(l.records);
    }
  }

  /** Appending all or some of a record's bytes is appending the record or a torn tail. */
  lemma AppendsRecord(l: Ledger, record: Record, k: nat)
    requires WellFormed(l) && l.tail == []
    requires |Line(record)| <= MAX_AUDIT_RECORD_BYTES && |Bytes(l)| + |Line(record)| <= MAX_TRANSACTION_BYTES
    requires k <= |Line(record)|
    ensures var next := if k < |Line(record)| then l.(tail := Line(record)[..k]) else l.(records := l.records + [record]);
            WellFormed(next) && Bytes(next) == Bytes(l) + Line(record)[..k]
  {
    hide Line;
    var payload := Line(record);
    if k < |payload| {
      assert k > 0 ==> Torn(payload[..k]) by { assert payload[..k] == Line(record)[..|payload[..k]|]; }
    } else {
      var more := l.records + [record];
      assert payload[..k] == payload;
      assert more[..|more| - 1] == l.records;
      assert Bytes(l.(records := more)) == Bytes(l) + payload;
    }
  }

  /** The byte-level transaction does to the file exactly what Step does to the records. */
  lemma Refines<T>(l: Ledger, decide: seq<Value> -> Verdict<T>, system: System)
    requires WellFormed(l)
    ensures var (r, next) := Step(l, decide, system);
            WellFormed(next) && Transaction(Bytes(l), decide, system) == (r, Bytes(next))
  {
    hide ReadLedger, Line, Bytes, WellFormed;
    ReadsWellFormed(l);
    if system.safe && system.readWhole && l.tail == [] && decide(l.records).Decide? {
      var record := decide(l.records).record;
      if |Line(record)| <= MAX_AUDIT_RECORD_BYTES && |Bytes(l)| + |Line(record)| <= MAX_TRANSACTION_BYTES {
        AppendsRecord(l, record, Written(system.writes, |Line(record)|));
      }
    }
  }

  // Whole histories of one file

  datatype Attempt<!T> = Attempt(decide: seq<Value> -> Verdict<T>, system: System)

  /** The file after a history of transactions, complete or failed or cut off, from an empty one. */
  function FileAfter<T>(history: seq<Attempt<T>>): seq<Byte> {
    if history == [] then []
    else
      var last := history[|history| - 1];
      Transaction(FileAfter(history[..|history| - 1]), last.decide, last.system).1
  }

  /** The same history on records. */
  function LedgerAfter<T>(history: seq<Attempt<T>>): Ledger {
    if history == [] then Ledger([], [])
    else
      var last := history[|history| - 1];
      Step(LedgerAfter(history[..|history| - 1]), last.decide, last.system).1
  }

  /** Every reachable file is whole records and at most one proper prefix of a record. */
  lemma {:induction false} CrashSafety<T>(history: seq<Attempt<T>>)
    ensures WellFormed(LedgerAfter(history)) && FileAfter(history) == Bytes(LedgerAfter(history))
  {
    if history != [] {
      var last := history[|history| - 1];
      CrashSafety(history[..|history| - 1]);
      Refines(LedgerAfter(history[..|history| - 1]), last.decide, last.system);
    }
  }

  /** Once an append was cut off, every later transaction fails and leaves the bytes alone. */
  lemma {:induction false} TornStaysTorn<T>(history: seq<Attempt<T>>, more: seq<Attempt<T>>)
    requires LedgerAfter(history).tail != []
    ensures FileAfter(history + more) == FileAfter(history)
    ensures forall decide: seq<Value> -> Verdict<T>, system ::
              Transaction(FileAfter(history + more), decide, system) == (Err(Unavailable), FileAfter(history))
    decreases |more|
  {
    hide ReadLedger, Step;
    CrashSafety(history);
    ReadsWellFormed(LedgerAfter(history));
    if more == [] {
      assert history + more == history;
    } else {
      var whole := history + more;
      assert whole[..|whole| - 1] == history + more[..|more| - 1];
      TornStaysTorn(history, more[..|more| - 1]);
    }
  }

  /** A transaction that returned a value is in the file, and the next one decides on it. */
  lemma CommittedIsRead<T>(history: seq<Attempt<T>>, decide: seq<Value> -> Verdict<T>, system: System)
    requires Transaction(FileAfter(history), decide, system).0.Ok?
    ensures var before := ReadLedger(FileAfter(history));
            && before.Some? && decide(before.value).Decide?
            && ReadLedger(Transaction(FileAfter(history), decide, system).1)
                 == Some(before.value + [decide(before.value).record])
  {
    hide ReadLedger, Line;
    CrashSafety(history);
    var l := LedgerAfter(history);
    Refines(l, decide, system);
    ReadsWellFormed(l);
    ReadsWellFormed(Step(l, decide, system).1);
  }
}
