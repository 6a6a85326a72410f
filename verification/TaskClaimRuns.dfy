/** What the claim protocol guarantees over whole runs, whatever the interleaving of the calls. */
module TaskClaimRuns {
  import opened Basics
  import opened Json
  import opened Timestamps
  import opened Audit
  import opened TaskClaims

  // What a decision does to the ledger

  /** The call is granted: valid, of an open task, that no unexpired claim holds. */
  predicate Grants(env: Env, call: Call, records: seq<Value>) {
    && call.ClaimTask? && ClaimRefusal(env, call).None?
    && Active(env, records, call.now).Some? && call.taskId.s !in Active(env, records, call.now).value
    && IsClaimId(Str(call.freshId)) && IsInstant(call.now + call.minutes.n * MINUTE)
  }

  /** The call releases the unexpired claim that it names. */
  predicate Drops(env: Env, call: Call, records: seq<Value>) {
    && call.ReleaseTask? && ReleaseRefusal(env, call).None?
    && Active(env, records, call.now).Some? && call.taskId.s in Active(env, records, call.now).value
    && var held := Active(env, records, call.now).value[call.taskId.s];
       held.owner == call.caller.s && held.claimId == call.claimId.s
  }

  lemma WholeMinutes(now: int, minutes: nat)
    ensures Floor(now + minutes * MINUTE) == Floor(now) + minutes * MINUTE
  {
    assert minutes * MINUTE == minutes * 60 * SECOND;
    assert (now + minutes * 60 * SECOND) / SECOND == now / SECOND + minutes * 60;
  }

  /** A granted claim runs from the second of the clock reading for exactly the asked minutes. */
  lemma GrantedTerm(env: Env, call: Call, records: seq<Value>)
    requires Grants(env, call, records)
    ensures var c := NewClaim(call);
            && Start(c) == Floor(call.now) && Expiry(c) == Floor(call.now) + call.minutes.n * MINUTE
            && ValidTerm(c.claimedAt, c.expiresAt)
  {
    hide Timestamp, ParseTimestamp, Floor;
    Timestamps.RoundTrip(call.now);
    Timestamps.RoundTrip(call.now + call.minutes.n * MINUTE);
    WholeMinutes(call.now, call.minutes.n);
  }

  // What the fields of a stored record read as

  function TermField(term: Term, x: Word): Value {
    if term.NoTerm? then Null
    else match x
      case ClaimId => Str(term.claimId)
      case ClaimedAt => Str(term.claimedAt)
      case ExpiresAt => Str(term.expiresAt)
      case _ => Null
  }

  lemma HeadFields(env: Env, call: Call, term: Term, x: Word)
    requires call.ClaimTask?
    ensures Get(ClaimHead(env, call, term), Text(x)) ==
      match x
      case Args => ClaimArgs(env, call)
      case CallerIdentity => Recorded(call.caller, 160)
      case _ => TermField(term, x)
  {
    hide Text, Add, Get, ClaimArgs, Recorded;
    var r1 := Add(Empty(), Args, ClaimArgs(env, call));
    var r2 := Add(r1, CallerIdentity, Recorded(call.caller, 160));
    var r3 := Add(r2, ClaimId, TermField(term, ClaimId));
    var r4 := Add(r3, ClaimedAt, TermField(term, ClaimedAt));
    GetEmpty(x);
    GetAdd(Empty(), Args, ClaimArgs(env, call), x);
    GetAdd(r1, CallerIdentity, Recorded(call.caller, 160), x);
    GetAdd(r2, ClaimId, TermField(term, ClaimId), x);
    GetAdd(r3, ClaimedAt, TermField(term, ClaimedAt), x);
    GetAdd(r4, ExpiresAt, TermField(term, ExpiresAt), x);
  }

  lemma ClaimFields(env: Env, call: Call, term: Term, outcome: Word, x: Word)
    requires call.ClaimTask?
    ensures Get(ClaimRecord(env, call, term, outcome), Text(x)) ==
      match x
      case Outcome => Str(Text(outcome))
      case SchemaVersion => Int(1)
      case SnapshotCommit => Str(env.commit)
      case Stamp => Str(Timestamp(call.now))
      case Tool => Str(Text(ClaimTool))
      case _ => Get(ClaimHead(env, call, term), Text(x))
  {
    hide Text, Add, Get, ClaimHead, Timestamp;
    var r5 := ClaimHead(env, call, term);
    var r6 := Add(r5, Outcome, Str(Text(outcome)));
    var r7 := Add(r6, SchemaVersion, Int(1));
    var r8 := Add(r7, SnapshotCommit, Str(env.commit));
    var r9 := Add(r8, Stamp, Str(Timestamp(call.now)));
    GetAdd(r5, Outcome, Str(Text(outcome)), x);
    GetAdd(r6, SchemaVersion, Int(1), x);
    GetAdd(r7, SnapshotCommit, Str(env.commit), x);
    GetAdd(r8, Stamp, Str(Timestamp(call.now)), x);
    GetAdd(r9, Tool, Str(Text(ClaimTool)), x);
  }

  lemma GetEmpty(x: Word)
    ensures Get(Empty(), Text(x)) == Null
  {
  }

  lemma ClaimArgFields(env: Env, call: Call)
    requires call.ClaimTask?
    ensures Get(ClaimArgs(env, call), Text(TaskId)) == Recorded(call.taskId, 256)
    ensures Get(ClaimArgs(env, call), Text(IdempotencyKey)) == Recorded(call.key, 64)
  {
    hide Text, Add, Get, Recorded;
    var valid := IsIdentity(env, call.caller) && IsTaskId(call.taskId) && IsKey(call.key) && IsDuration(call.minutes);
    var r1 := Add(Empty(), DurationMinutes, if valid then call.minutes else Null);
    var r2 := Add(r1, IdempotencyKey, Recorded(call.key, 64));
    GetAdd(r2, TaskId, Recorded(call.taskId, 256), TaskId);
    GetAdd(r2, TaskId, Recorded(call.taskId, 256), IdempotencyKey);
    GetAdd(r1, IdempotencyKey, Recorded(call.key, 64), IdempotencyKey);
  }

  lemma ReleaseFields(env: Env, call: Call, outcome: Word, x: Word)
    requires call.ReleaseTask?
    ensures Get(ReleaseRecord(env, call, outcome), Text(x)) ==
      match x
      case Args => ReleaseArgs(call)
      case CallerIdentity => Recorded(call.caller, 160)
      case Outcome => Str(Text(outcome))
      case SchemaVersion => Int(1)
      case SnapshotCommit => Str(env.commit)
      case Stamp => Str(Timestamp(call.now))
      case Tool => Str(Text(ReleaseTool))
      case _ => Null
  {
    hide Text, Add, Get, ReleaseArgs, Recorded, Timestamp;
    var r1 := Add(Empty(), Args, ReleaseArgs(call));
    var r2 := Add(r1, CallerIdentity, Recorded(call.caller, 160));
    var r3 := Add(r2, Outcome, Str(Text(outcome)));
    var r4 := Add(r3, SchemaVersion, Int(1));
    var r5 := Add(r4, SnapshotCommit, Str(env.commit));
    var r6 := Add(r5, Stamp, Str(Timestamp(call.now)));
    GetEmpty(x);
    GetAdd(Empty(), Args, ReleaseArgs(call), x);
    GetAdd(r1, CallerIdentity, Recorded(call.caller, 160), x);
    GetAdd(r2, Outcome, Str(Text(outcome)), x);
    GetAdd(r3, SchemaVersion, Int(1), x);
    GetAdd(r4, SnapshotCommit, Str(env.commit), x);
    GetAdd(r5, Stamp, Str(Timestamp(call.now)), x);
    GetAdd(r6, Tool, Str(Text(ReleaseTool)), x);
  }

  lemma ReleaseArgFields(call: Call)
    requires call.ReleaseTask?
    ensures Get(ReleaseArgs(call), Text(TaskId)) == Recorded(call.taskId, 256)
    ensures Get(ReleaseArgs(call), Text(ClaimId)) == Recorded(call.claimId, 24)
  {
    hide Text, Add, Get, Recorded;
    var r1 := Add(Empty(), ClaimId, Recorded(call.claimId, 24));
    GetAdd(r1, TaskId, Recorded(call.taskId, 256), TaskId);
    GetAdd(r1, TaskId, Recorded(call.taskId, 256), ClaimId);
    GetAdd(Empty(), ClaimId, Recorded(call.claimId, 24), ClaimId);
  }

  // What a stored record means to the replay

  lemma ClaimEvent(env: Env, call: Call, term: Term, outcome: Word)
    requires call.ClaimTask?
    ensures var r := ClaimRecord(env, call, term, outcome);
            EventOf(env, r) == if outcome == WasClaimed then GrantOf(env, r) else Skip
  {
    hide Text, GrantOf, ClaimRecord, Get;
    ClaimFields(env, call, term, outcome, Tool);
    ClaimFields(env, call, term, outcome, SchemaVersion);
    ClaimFields(env, call, term, outcome, Outcome);
    if Text(outcome) == Text(WasClaimed) { WordsDiffer(outcome, WasClaimed); }
    if Text(ClaimTool) == Text(ReleaseTool) { WordsDiffer(ClaimTool, ReleaseTool); }
  }

  lemma GrantFields(env: Env, call: Call, term: Term, x: Word)
    requires call.ClaimTask? && x in {Args, CallerIdentity, ClaimId, ClaimedAt, ExpiresAt}
    ensures Get(ClaimRecord(env, call, term, WasClaimed), Text(x)) ==
      match x
      case Args => ClaimArgs(env, call)
      case CallerIdentity => Recorded(call.caller, 160)
      case _ => TermField(term, x)
  {
    hide Text, Get, ClaimRecord, ClaimHead, ClaimArgs, Recorded;
    ClaimFields(env, call, term, WasClaimed, x);
    HeadFields(env, call, term, x);
  }

  lemma GrantEvent(env: Env, call: Call, records: seq<Value>)
    requires Grants(env, call, records)
    ensures EventOf(env, ClaimRecord(env, call, TermOf(NewClaim(call)), WasClaimed)) == Grant(NewClaim(call))
  {
    hide Text, ClaimRecord, ClaimArgs, Get, Timestamp, ValidTerm, Active, EventOf;
    GrantedTerm(env, call, records);
    var term := TermOf(NewClaim(call));
    ClaimEvent(env, call, term, WasClaimed);
    GrantFields(env, call, term, Args);
    GrantFields(env, call, term, CallerIdentity);
    GrantFields(env, call, term, ClaimId);
    GrantFields(env, call, term, ClaimedAt);
    GrantFields(env, call, term, ExpiresAt);
    ClaimArgFields(env, call);
  }

  lemma ReleaseEvent(env: Env, call: Call, outcome: Word)
    requires call.ReleaseTask?
    ensures var r := ReleaseRecord(env, call, outcome);
            EventOf(env, r) == if outcome == WasReleased then DropOf(env, r) else Skip
  {
    hide Text, DropOf, ReleaseRecord, Get;
    ReleaseFields(env, call, outcome, Tool);
    ReleaseFields(env, call, outcome, SchemaVersion);
    ReleaseFields(env, call, outcome, Outcome);
    if Text(outcome) == Text(WasReleased) { WordsDiffer(outcome, WasReleased); }
    if Text(ClaimTool) == Text(ReleaseTool) { WordsDiffer(ClaimTool, ReleaseTool); }
  }

  lemma DropEvent(env: Env, call: Call)
    requires call.ReleaseTask? && ReleaseRefusal(env, call).None?
    ensures EventOf(env, ReleaseRecord(env, call, WasReleased)) == Drop(call.taskId.s, call.claimId.s, call.caller.s)
  {
    hide Text, ReleaseRecord, ReleaseArgs, Get, EventOf;
    ReleaseEvent(env, call, WasReleased);
    ReleaseFields(env, call, WasReleased, Args);
    ReleaseFields(env, call, WasReleased, CallerIdentity);
    ReleaseArgFields(call);
  }

  /** What a decided call does to the claims in force. */
  function Effect(env: Env, call: Call, records: seq<Value>): Event {
    if Grants(env, call, records) then Grant(NewClaim(call))
    else if Drops(env, call, records) then Drop(call.taskId.s, call.claimId.s, call.caller.s)
    else Skip
  }

  lemma GrantDecides(env: Env, rs: seq<Value>, call: Call)
    requires Grants(env, call, rs)
    ensures Decision(env, call, rs).Decide?
  {
    hide ClaimRefusal, Active, IsClaimId, ClaimRecord, NewClaim;
  }

  /** A recorded decision is a grant, a release of the claim in force, or nothing to the replay. */
  lemma DecisionEvent(env: Env, call: Call, records: seq<Value>)
    requires Decision(env, call, records).Decide?
    ensures EventOf(env, Decision(env, call, records).record) == Effect(env, call, records)
  {
    hide EventOf, Effect, DecideClaim, DecideRelease;
    if call.ClaimTask? {
      ClaimDecisionEvent(env, call, records);
    } else {
      ReleaseDecisionEvent(env, call, records);
    }
  }

  lemma ClaimDecisionEvent(env: Env, call: Call, records: seq<Value>)
    requires call.ClaimTask? && DecideClaim(env, call, records).Decide?
    ensures EventOf(env, DecideClaim(env, call, records).record) == Effect(env, call, records)
  {
    hide EventOf, ClaimRecord, ClaimRefusal, Active, NewClaim;
    if Grants(env, call, records) {
      GrantEvent(env, call, records);
    } else if ClaimRefusal(env, call).Some? {
      ClaimEvent(env, call, NoTerm, OutcomeOf(ClaimRefusal(env, call).value.code));
    } else {
      ClaimEvent(env, call, NoTerm, ConflictOutcome);
      ClaimEvent(env, call, TermOf(Active(env, records, call.now).value[call.taskId.s]), WasReplayed);
    }
  }

  lemma ReleaseDecisionEvent(env: Env, call: Call, records: seq<Value>)
    requires call.ReleaseTask? && DecideRelease(env, call, records).Decide?
    ensures EventOf(env, DecideRelease(env, call, records).record) == Effect(env, call, records)
  {
    hide EventOf, ReleaseRecord, ReleaseRefusal, Active;
    if ReleaseRefusal(env, call).Some? {
      ReleaseEvent(env, call, OutcomeOf(ReleaseRefusal(env, call).value.code));
    } else {
      DropEvent(env, call);
      ReleaseEvent(env, call, ConflictOutcome);
      ReleaseEvent(env, call, NotClaimed);
    }
  }

  // Runs

  /** The ledger after more calls, each deciding and appending under the lock. */
  function RunFrom(env: Env, records: seq<Record>, calls: seq<Call>): seq<Record> {
    if calls == [] then records
    else
      var before := RunFrom(env, records, calls[..|calls| - 1]);
      match Decision(env, calls[|calls| - 1], before)
      case Raise => before
      case Decide(record, _) => before + [record]
  }

  function Run(env: Env, calls: seq<Call>): seq<Record> { RunFrom(env, [], calls) }

  ghost predicate Monotone(calls: seq<Call>) {
    forall i, j :: 0 <= i < j < |calls| ==> calls[i].now <= calls[j].now
  }

  /** The claims after one more decided call, in terms of the claims before it. */
  lemma ReplayStep(env: Env, records: seq<Record>, call: Call)
    requires Replay(env, records).Some? && Decision(env, call, records).Decide?
    ensures var more := records + [Decision(env, call, records).record];
            && Replay(env, more) == Apply(Replay(env, records).value, Effect(env, call, records))
            && Replay(env, more).Some?
  {
    hide EventOf, Decision, NewClaim;
    var more := records + [Decision(env, call, records).record];
    assert more[..|more| - 1] == records;
    DecisionEvent(env, call, records);
  }

  /** The service never poisons its own ledger, whatever the clock readings. */
  lemma {:induction false} NeverPoisoned(env: Env, records: seq<Record>, calls: seq<Call>)
    requires Replay(env, records).Some?
    ensures Replay(env, RunFrom(env, records, calls)).Some?
    decreases |calls|
  {
    hide Decision, Effect;
    if calls != [] {
      var before := RunFrom(env, records, calls[..|calls| - 1]);
      NeverPoisoned(env, records, calls[..|calls| - 1]);
      if Decision(env, calls[|calls| - 1], before).Decide? {
        ReplayStep(env, before, calls[|calls| - 1]);
      }
    }
  }
}
