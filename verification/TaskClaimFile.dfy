/** The service and its ledger file together, with every append free to fail or be cut off. */
module TaskClaimFile {
  import opened Basics
  import opened Json
  import opened Timestamps
  import opened Audit
  import opened Decimal
  import opened TaskClaims
  import opened TaskClaimRuns
  import opened TaskClaimSafety
  import opened TaskClaimClocks
  import opened TaskClaimLedger

  datatype Request = Request(call: Call, system: System)

  /** The file after serving requests one after the other, from an empty file. */
  function Served(env: Env, requests: seq<Request>): seq<Byte> {
    if requests == [] then []
    else
      var last := requests[|requests| - 1];
      Transaction(Served(env, requests[..|requests| - 1]), Decider(env, last.call), last.system).1
  }

  function ServedLedger(env: Env, requests: seq<Request>): Ledger {
    if requests == [] then Ledger([], [])
    else
      var last := requests[|requests| - 1];
      Step(ServedLedger(env, requests[..|requests| - 1]), Decider(env, last.call), last.system).1
  }

  /** The calls whose record went into the file whole. */
  function Durable(env: Env, requests: seq<Request>): seq<Call> {
    if requests == [] then []
    else
      var most, last := requests[..|requests| - 1], requests[|requests| - 1];
      var before, after := ServedLedger(env, most), ServedLedger(env, requests);
      Durable(env, most) + if |after.records| > |before.records| then [last.call] else []
  }

  ghost predicate MonotoneRequests(requests: seq<Request>) {
    forall i, j :: 0 <= i < j < |requests| ==> requests[i].call.now <= requests[j].call.now
  }

  /** A step adds the decided record or leaves the records alone. */
  lemma StepRecords(env: Env, l: Ledger, r: Request)
    ensures var after := Step(l, Decider(env, r.call), r.system).1;
            || after.records == l.records
            || (Decision(env, r.call, l.records).Decide?
                && after.records == l.records + [Decision(env, r.call, l.records).record])
  {
    hide Decision, Line, Written;
  }

  lemma {:induction false} DurableBefore(env: Env, requests: seq<Request>, t: int)
    requires forall i :: 0 <= i < |requests| ==> requests[i].call.now <= t
    ensures forall i :: 0 <= i < |Durable(env, requests)| ==> Durable(env, requests)[i].now <= t
  {
    hide Step;
    if requests != [] {
      DurableBefore(env, requests[..|requests| - 1], t);
    }
  }

  lemma {:induction false} DurableIsMonotone(env: Env, requests: seq<Request>)
    requires MonotoneRequests(requests)
    ensures Monotone(Durable(env, requests))
  {
    hide Step;
    if requests != [] {
      var most := requests[..|requests| - 1];
      DurableIsMonotone(env, most);
      DurableBefore(env, most, requests[|requests| - 1].call.now);
    }
  }

  /** The records in the file are those of a run of the calls that were recorded. */
  lemma {:induction false} ServedIsRun(env: Env, requests: seq<Request>)
    ensures ServedLedger(env, requests).records == Run(env, Durable(env, requests))
  {
    hide Decision, Step;
    if requests != [] {
      var most, last := requests[..|requests| - 1], requests[|requests| - 1];
      ServedIsRun(env, most);
      StepRecords(env, ServedLedger(env, most), last);
      var calls := Durable(env, requests);
      if calls != Durable(env, most) {
        assert calls[..|calls| - 1] == Durable(env, most);
      }
    }
  }

  lemma {:induction false} ServedIsWellFormed(env: Env, requests: seq<Request>)
    ensures WellFormed(ServedLedger(env, requests)) && Served(env, requests) == Bytes(ServedLedger(env, requests))
  {
    hide Step, Transaction, Decider;
    if requests == [] {
      assert Bytes(Ledger([], [])) == [];
    } else {
      var most, last := requests[..|requests| - 1], requests[|requests| - 1];
      ServedIsWellFormed(env, most);
      Refines(ServedLedger(env, most), Decider(env, last.call), last.system);
    }
  }

  /**
   Whatever fails in whatever transaction, the ledger file holds whole records that replay without
   error. Grants of one task exclude each other exactly when every granted call that was recorded read
   its clock on time, as it does when the clocks of those calls do not step back within a task.
  */
  lemma FileIsSafe(env: Env, requests: seq<Request>)
    ensures var l, recorded := ServedLedger(env, requests), Durable(env, requests);
            && Served(env, requests) == Bytes(l)
            && ReadLedger(Served(env, requests)) == (if l.tail == [] then Some(l.records) else None)
            && Replay(env, l.records).Some? && ConsecutivelyExclusive(env, l.records)
            && (Exclusive(env, l.records) <==> AllOnTime(env, recorded))
            && (MonotoneGrants(env, recorded) ==> Exclusive(env, l.records))
            && (MonotoneRequests(requests) ==> MonotoneGrants(env, recorded))
  {
    hide ServedLedger, Served, ReadLedger, Replay, Bytes, WellFormed, ConsecutivelyExclusive, Exclusive, AllOnTime,
         MonotoneGrants;
    ServedIsWellFormed(env, requests);
    ReadsWellFormed(ServedLedger(env, requests));
    ServedIsRun(env, requests);
    var recorded := Durable(env, requests);
    ConsecutiveExclusion(env, recorded);
    ExclusiveExactly(env, recorded);
    if MonotoneGrants(env, recorded) { MutualExclusion(env, recorded); }
    if MonotoneRequests(requests) {
      DurableIsMonotone(env, requests);
      MonotoneIsEnough(env, recorded);
    }
  }

  // What callers are told

  /** The reply to request `k` of a history. */
  function ReplyTo(env: Env, requests: seq<Request>, k: nat): Reply
    requires k < |requests|
  {
    var r := requests[k];
    Answer(Transaction(Served(env, requests[..k]), Decider(env, r.call), r.system).0)
  }

  /** The replay after a decision that tells the caller of a claim holds that claim, and the caller owns it. */
  lemma ToldClaimIsHeld(env: Env, rs: seq<Record>, call: Call, c: Claim, replayed: bool)
    requires Replay(env, rs).Some? && Decision(env, call, rs).Decide? && Decision(env, call, rs).value == Claimed(c, replayed)
    ensures var more := rs + [Decision(env, call, rs).record];
            Replay(env, more).Some? && Holds(Replay(env, more).value, c)
    ensures call.ClaimTask? && call.caller == Str(c.owner) && call.taskId == Str(c.taskId) && call.now < Expiry(c)
  {
    hide EventOf, Expiry, Start, Replay, ClaimRecord, ReleaseRecord, IsClaimId, Floor;
    DecidedIsAppended(env, rs, call);
    assert call.ClaimTask? && ClaimRefusal(env, call).None?;
    if replayed {
      HeldNamesTask(env, rs, call.taskId.s);
    } else {
      assert Grants(env, call, rs);
      GrantRuns(env, call, rs);
    }
  }

  /** A new claim runs when it is made. */
  lemma GrantRuns(env: Env, call: Call, rs: seq<Value>)
    requires Grants(env, call, rs)
    ensures call.now < Expiry(NewClaim(call))
  {
    hide Expiry, Start, Active, Floor, ClaimRefusal, NewClaim, ValidTerm;
    GrantedTerm(env, call, rs);
    FloorIsNear(call.now);
    assert call.minutes.n * MINUTE >= SECOND;
  }

  lemma FloorIsNear(now: int)
    ensures now < Floor(now) + SECOND
  {
  }

  lemma {:induction false} LedgerGrows(env: Env, requests: seq<Request>, k: nat)
    requires k <= |requests|
    ensures ServedLedger(env, requests[..k]).records <= ServedLedger(env, requests).records
    decreases |requests|
  {
    hide Decision, Step;
    if k < |requests| {
      var most := requests[..|requests| - 1];
      LedgerGrows(env, most, k);
      assert most[..k] == requests[..k];
      StepRecords(env, ServedLedger(env, most), requests[|requests| - 1]);
    } else {
      assert requests[..k] == requests;
    }
  }

  /** What a successful transaction says of the ledger: the decision's record is in it. */
  lemma AnsweredIsRecorded(env: Env, requests: seq<Request>, k: nat)
    requires k < |requests|
    requires Transaction(Served(env, requests[..k]), Decider(env, requests[k].call), requests[k].system).0.Ok?
    ensures var l, call := ServedLedger(env, requests[..k]), requests[k].call;
            && Replay(env, l.records).Some?
            && Decision(env, call, l.records).Decide? && Decision(env, call, l.records).value == ReplyTo(env, requests, k)
            && ServedLedger(env, requests[..k + 1]).records == l.records + [Decision(env, call, l.records).record]
  {
    hide Decision, Line, Written, ReadLedger, Replay, Bytes;
    var before, r := requests[..k], requests[k];
    ServedIsWellFormed(env, before);
    FileIsSafe(env, before);
    Refines(ServedLedger(env, before), Decider(env, r.call), r.system);
    assert requests[..k + 1][..k] == before;
  }

  ghost predicate IsInForce(env: Env, rs: seq<Value>, c: Claim) { exists i :: InForce(env, rs, i, c) }

  ghost predicate IsGranted(env: Env, rs: seq<Value>, c: Claim) { exists i :: GrantAt(env, rs, i, c) }

  /**
   No caller is told of a claim that is not in the file: a claimed reply, new or replayed, names a
   claim of the caller's that is held when it is given, still runs, and was granted by a durable record.
  */
  lemma ToldClaimIsDurable(env: Env, requests: seq<Request>, k: nat)
    requires k < |requests| && ReplyTo(env, requests, k).Claimed?
    ensures var c, call := ReplyTo(env, requests, k).claim, requests[k].call;
            && call.ClaimTask? && call.caller == Str(c.owner) && call.taskId == Str(c.taskId) && call.now < Expiry(c)
            && IsInForce(env, ServedLedger(env, requests[..k + 1]).records, c)
            && IsGranted(env, ServedLedger(env, requests).records, c)
  {
    hide Decision, EventOf, Expiry, ServedLedger, Served, Transaction, Replay;
    AnsweredIsRecorded(env, requests, k);
    var told := ReplyTo(env, requests, k);
    var c, l := told.claim, ServedLedger(env, requests[..k]);
    ToldClaimIsHeld(env, l.records, requests[k].call, c, told.replayed);
    var after := ServedLedger(env, requests[..k + 1]).records;
    ReplayIsLastEvent(env, after, c);
    var i :| InForce(env, after, i, c);
    LedgerGrows(env, requests, k + 1);
    var all := ServedLedger(env, requests).records;
    PrefixEvents(env, all, |after|, i, 0, c);
    assert all[..|after|] == after;
    assert GrantAt(env, all, i, c);
  }

  /** Of two claims, granted at different places, one is released before the other is granted, or over when it starts. */
  ghost predicate TakeTurns(env: Env, rs: seq<Value>, c: Claim, d: Claim) {
    exists i, j :: Precedes(env, rs, i, c, j, d) || Precedes(env, rs, i, d, j, c)
  }

  ghost predicate Precedes(env: Env, rs: seq<Value>, i: int, c: Claim, j: int, d: Claim) {
    i < j && GrantAt(env, rs, i, c) && GrantAt(env, rs, j, d) && (DroppedWithin(env, rs, i, j, c) || Expiry(c) <= Start(d))
  }

  /** So, when the recorded grants read their clocks on time, no two callers are told overlapping claims of one task. */
  lemma ToldClaimsTakeTurns(env: Env, requests: seq<Request>, k: nat, l: nat)
    requires AllOnTime(env, Durable(env, requests))
    requires k < |requests| && l < |requests| && ReplyTo(env, requests, k).Claimed? && ReplyTo(env, requests, l).Claimed?
    ensures var c, d := ReplyTo(env, requests, k).claim, ReplyTo(env, requests, l).claim;
            c.taskId == d.taskId && c != d ==> TakeTurns(env, ServedLedger(env, requests).records, c, d)
  {
    hide EventOf, Expiry, Start, ServedLedger, ReplyTo, Served, ReadLedger, AllOnTime, Durable;
    FileIsSafe(env, requests);
    ToldClaimIsDurable(env, requests, k);
    ToldClaimIsDurable(env, requests, l);
    var c, d := ReplyTo(env, requests, k).claim, ReplyTo(env, requests, l).claim;
    var rs := ServedLedger(env, requests).records;
    if c.taskId == d.taskId && c != d {
      var i :| GrantAt(env, rs, i, c);
      var j :| GrantAt(env, rs, j, d);
      assert if i < j then Precedes(env, rs, i, c, j, d) else Precedes(env, rs, j, d, i, c);
    }
  }

  // The size of a record

  /** The bytes that fields take in an object. */
  function FieldsSize(fields: seq<Field>): nat
    requires forall i :: 0 <= i < |fields| ==> NoFloat(fields[i].value)
  {
    if fields == [] then 0
    else FieldsSize(fields[..|fields| - 1]) + FieldSize(fields[|fields| - 1])
  }

  function FieldSize(f: Field): nat
    requires NoFloat(f.value)
  {
    |DumpString(f.key)| + |Dump(f.value)| + 2
  }

  lemma {:induction false} FieldsSizeHead(fields: seq<Field>)
    requires fields != []
    requires forall i :: 0 <= i < |fields| ==> NoFloat(fields[i].value)
    ensures FieldsSize(fields) == FieldSize(fields[0]) + FieldsSize(fields[1..])
  {
    hide FieldSize;
    var n := |fields| - 1;
    if n > 0 {
      FieldsSizeHead(fields[..n]);
      assert fields[..n][1..] == fields[1..][..n - 1];
    } else {
      assert fields[..n] == [] && fields[1..] == [];
    }
  }

  lemma {:induction false} DumpFieldsSize(fields: seq<Field>)
    requires fields != []
    requires forall i :: 0 <= i < |fields| ==> NoFloat(fields[i].value)
    ensures |DumpFields(fields)| == FieldsSize(fields)
    decreases |fields|
  {
    hide DumpString, Dump;
    FieldsSizeHead(fields);
    if |fields| > 1 {
      DumpFieldsSize(fields[1..]);
    } else {
      assert fields[1..] == [];
    }
  }

  lemma ObjectSize(r: Record)
    ensures |Dump(r)| <= FieldsSize(r.fields) + 2
  {
    hide DumpFields;
    if r.fields != [] { DumpFieldsSize(r.fields); }
  }

  const FIELD: nat := 244

  lemma AddSize(r: Record, w: Word, v: Value, n: nat)
    requires NoFloat(v) && |Dump(v)| <= n
    ensures FieldsSize(Add(r, w, v).fields) <= FieldsSize(r.fields) + n + FIELD
  {
    hide Dump, Text, DumpString;
    TextSize(w);
    var fields := Add(r, w, v).fields;
    assert fields[..|fields| - 1] == r.fields;
  }

  lemma TextSize(w: Word)
    ensures |Text(w)| <= 20 && |DumpString(Text(w))| <= FIELD - 2
  {
    hide DumpString;
  }

  lemma RecordedSize(v: Value, limit: nat)
    requires limit >= 1
    ensures |Dump(Recorded(v, limit))| <= 12 * limit + 2
  {
    hide DumpString;
  }

  lemma TextValueSize(s: string, limit: nat)
    requires |s| <= limit && limit >= 1
    ensures |Dump(Str(s))| <= 12 * limit + 2 && |Dump(Null)| <= 12 * limit + 2
  {
    hide DumpString;
  }

  lemma DurationSize(v: Value)
    requires v.Null? || IsDuration(v)
    ensures |Dump(v)| <= 4
  {
    hide Digits;
    if v.Int? { DigitsBelow10000(v.n); }
  }

  lemma ClaimArgsSize(env: Env, call: Call)
    requires call.ClaimTask?
    ensures |Dump(ClaimArgs(env, call))| <= 4600
  {
    hide Text, Add, Dump, FieldsSize, Recorded;
    var valid := IsIdentity(env, call.caller) && IsTaskId(call.taskId) && IsKey(call.key) && IsDuration(call.minutes);
    var minutes := if valid then call.minutes else Null;
    var r1 := Add(Empty(), DurationMinutes, minutes);
    var r2 := Add(r1, IdempotencyKey, Recorded(call.key, 64));
    DurationSize(minutes);
    AddSize(Empty(), DurationMinutes, minutes, 4);
    RecordedSize(call.key, 64);
    AddSize(r1, IdempotencyKey, Recorded(call.key, 64), 770);
    RecordedSize(call.taskId, 256);
    AddSize(r2, TaskId, Recorded(call.taskId, 256), 3074);
    EmptySize();
    ObjectSize(ClaimArgs(env, call));
  }

  lemma EmptySize()
    ensures FieldsSize(Empty().fields) == 0
  {
  }

  lemma ReleaseArgsSize(call: Call)
    requires call.ReleaseTask?
    ensures |Dump(ReleaseArgs(call))| <= 4600
  {
    hide Text, Add, Dump, FieldsSize, Recorded;
    var r1 := Add(Empty(), ClaimId, Recorded(call.claimId, 24));
    RecordedSize(call.claimId, 24);
    AddSize(Empty(), ClaimId, Recorded(call.claimId, 24), 290);
    RecordedSize(call.taskId, 256);
    AddSize(r1, TaskId, Recorded(call.taskId, 256), 3074);
    EmptySize();
    ObjectSize(ReleaseArgs(call));
  }

  predicate ShortTerm(term: Term) {
    term.Term? ==> |term.claimId| <= 24 && |term.claimedAt| <= 20 && |term.expiresAt| <= 20
  }

  lemma HeadSize(env: Env, call: Call, term: Term)
    requires call.ClaimTask? && ShortTerm(term)
    ensures FieldsSize(ClaimHead(env, call, term).fields) <= 8600
  {
    hide Text, Add, Dump, FieldsSize, Recorded, ClaimArgs;
    var r1 := Add(Empty(), Args, ClaimArgs(env, call));
    var r2 := Add(r1, CallerIdentity, Recorded(call.caller, 160));
    var r3 := Add(r2, ClaimId, TermField(term, ClaimId));
    var r4 := Add(r3, ClaimedAt, TermField(term, ClaimedAt));
    EmptySize();
    ClaimArgsSize(env, call);
    AddSize(Empty(), Args, ClaimArgs(env, call), 4600);
    RecordedSize(call.caller, 160);
    AddSize(r1, CallerIdentity, Recorded(call.caller, 160), 1922);
    TextValueSize(if term.Term? then term.claimId else "", 24);
    TextValueSize(if term.Term? then term.claimedAt else "", 20);
    TextValueSize(if term.Term? then term.expiresAt else "", 20);
    AddSize(r2, ClaimId, TermField(term, ClaimId), 290);
    AddSize(r3, ClaimedAt, TermField(term, ClaimedAt), 242);
    AddSize(r4, ExpiresAt, TermField(term, ExpiresAt), 242);
  }

  /** The fields that every record ends with. */
  lemma FootSize(env: Env, r: Record, outcome: Word, now: Instant, tool: Word)
    requires |env.commit| <= 40
    ensures var o := Add(Add(Add(Add(Add(r, Outcome, Str(Text(outcome))), SchemaVersion, Int(1)),
                       SnapshotCommit, Str(env.commit)), Stamp, Str(Timestamp(now))), Tool, Str(Text(tool)));
            |Dump(o)| <= FieldsSize(r.fields) + 2500
  {
    hide Text, Add, Dump, FieldsSize, Timestamp;
    var r6 := Add(r, Outcome, Str(Text(outcome)));
    var r7 := Add(r6, SchemaVersion, Int(1));
    var r8 := Add(r7, SnapshotCommit, Str(env.commit));
    var r9 := Add(r8, Stamp, Str(Timestamp(now)));
    TextSize(outcome);
    TextSize(tool);
    TextValueSize(Text(outcome), 20);
    TextValueSize(Text(tool), 20);
    TextValueSize(env.commit, 40);
    TextValueSize(Timestamp(now), 20);
    OneSize();
    AddSize(r, Outcome, Str(Text(outcome)), 242);
    AddSize(r6, SchemaVersion, Int(1), 4);
    AddSize(r7, SnapshotCommit, Str(env.commit), 482);
    AddSize(r8, Stamp, Str(Timestamp(now)), 242);
    AddSize(r9, Tool, Str(Text(tool)), 242);
    ObjectSize(Add(r9, Tool, Str(Text(tool))));
  }

  lemma OneSize()
    ensures |Dump(Int(1))| <= 4
  {
    hide Digits;
    DigitsBelow10000(1);
  }

  lemma {:induction false} HeldIsShort(env: Env, rs: seq<Value>, taskId: string)
    requires Replay(env, rs).Some? && taskId in Replay(env, rs).value
    ensures ShortTerm(TermOf(Replay(env, rs).value[taskId]))
    decreases |rs|
  {
    hide EventOf;
    var e := EventOf(env, rs[|rs| - 1]);
    if e.Grant? && e.claim.taskId == taskId {
      GrantIsShort(env, rs[|rs| - 1], e.claim);
    } else {
      HeldIsShort(env, rs[..|rs| - 1], taskId);
    }
  }

  lemma GrantIsShort(env: Env, r: Value, c: Claim)
    requires EventOf(env, r) == Grant(c)
    ensures ShortTerm(TermOf(c))
  {
    hide Text, Get;
  }

  /** No record the service writes reaches the record bound, so the bound never refuses one. */
  lemma RecordsFit(env: Env, call: Call, rs: seq<Value>)
    requires |env.commit| <= 40 && Decision(env, call, rs).Decide?
    ensures |Line(Decision(env, call, rs).record)| <= MAX_AUDIT_RECORD_BYTES
  {
    hide ClaimRecord, ReleaseRecord, ClaimRefusal, ReleaseRefusal, Dump, NewClaim;
    if call.ClaimTask? {
      ClaimRecordFits(env, call, rs);
    } else {
      forall outcome ensures |Dump(ReleaseRecord(env, call, outcome))| <= 9600 { ReleaseRecordSize(env, call, outcome); }
    }
    DumpIsPlain(Decision(env, call, rs).record);
  }

  lemma ClaimRecordFits(env: Env, call: Call, rs: seq<Value>)
    requires |env.commit| <= 40 && call.ClaimTask? && DecideClaim(env, call, rs).Decide?
    ensures |Dump(DecideClaim(env, call, rs).record)| <= 11200
  {
    hide ClaimRecord, ClaimRefusal, Dump, Timestamp, Replay;
    forall term, outcome | ShortTerm(term)
      ensures |Dump(ClaimRecord(env, call, term, outcome))| <= 11200
    {
      ClaimRecordSize(env, call, term, outcome);
    }
    if ClaimRefusal(env, call).None? && call.taskId.s in Active(env, rs, call.now).value {
      HeldIsShort(env, rs, call.taskId.s);
    }
  }

  lemma ClaimRecordSize(env: Env, call: Call, term: Term, outcome: Word)
    requires |env.commit| <= 40 && call.ClaimTask? && ShortTerm(term)
    ensures |Dump(ClaimRecord(env, call, term, outcome))| <= 11200
  {
    hide Dump, Add, Text, ClaimHead, Timestamp;
    HeadSize(env, call, term);
    FootSize(env, ClaimHead(env, call, term), outcome, call.now, ClaimTool);
  }

  lemma ReleaseRecordSize(env: Env, call: Call, outcome: Word)
    requires |env.commit| <= 40 && call.ReleaseTask?
    ensures |Dump(ReleaseRecord(env, call, outcome))| <= 9600
  {
    hide Text, Add, Dump, FieldsSize, Recorded, ReleaseArgs, Timestamp;
    var r1 := Add(Empty(), Args, ReleaseArgs(call));
    var r2 := Add(r1, CallerIdentity, Recorded(call.caller, 160));
    EmptySize();
    ReleaseArgsSize(call);
    AddSize(Empty(), Args, ReleaseArgs(call), 4600);
    RecordedSize(call.caller, 160);
    AddSize(r1, CallerIdentity, Recorded(call.caller, 160), 1922);
    FootSize(env, r2, outcome, call.now, ReleaseTool);
  }
}
