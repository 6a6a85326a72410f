/** What the callers of claim_task and release_task are told, and that the ledger says the same. */
module TaskClaimAnswers {
  import opened Basics
  import opened Json
  import opened Timestamps
  import opened Audit
  import opened TaskClaims
  import opened TaskClaimRuns
  import opened TaskClaimSafety
  import opened TaskClaimLedger
  import opened TaskClaimFile

  /** The claim that holds a task at `now`: its latest grant, not released since and not over. */
  ghost predicate Occupies(env: Env, rs: seq<Value>, taskId: string, c: Claim, now: int) {
    c.taskId == taskId && IsInForce(env, rs, c) && now < Expiry(c)
  }

  ghost predicate IsHeld(env: Env, rs: seq<Value>, taskId: string, now: int) {
    exists c :: Occupies(env, rs, taskId, c, now)
  }

  /** The claim that a granted call is owed. */
  ghost predicate IsOwed(call: Call, c: Claim)
    requires call.ClaimTask?
  {
    && call.taskId == Str(c.taskId) && c.claimId == call.freshId && call.caller == Str(c.owner) && call.key == Str(c.key)
    && call.minutes.Int?
    && c.claimedAt == Timestamp(call.now) && Start(c) == Floor(call.now)
    && Expiry(c) == Floor(call.now) + call.minutes.n * 60_000_000
  }

  ghost predicate ValidClaim(env: Env, call: Call)
    requires call.ClaimTask?
  {
    && IsIdentity(env, call.caller) && IsTaskId(call.taskId) && IsKey(call.key) && IsDuration(call.minutes)
    && call.taskId.s in env.tasks && env.tasks[call.taskId.s] in {Status.Open, Status.Blocked}
  }

  /** The right answer to a claim call over a ledger. */
  ghost predicate AnswersClaim(env: Env, rs: seq<Value>, call: Call, reply: Reply)
    requires call.ClaimTask?
  {
    if !IsIdentity(env, call.caller) then reply == Refused(BadArgs, BadIdentity)
    else if !IsTaskId(call.taskId) then reply == Refused(BadArgs, BadTaskId)
    else if !IsKey(call.key) then reply == Refused(BadArgs, BadKey)
    else if !(call.minutes.Int? && 15 <= call.minutes.n <= 1440) then reply == Refused(BadArgs, BadDuration)
    else if call.taskId.s !in env.tasks then reply == Refused(NotFound, NoSuchTask)
    else if env.tasks[call.taskId.s] == Status.Done then reply == Refused(Conflict, TaskDone)
    else if IsHeld(env, rs, call.taskId.s, call.now) then
      forall c :: Occupies(env, rs, call.taskId.s, c, call.now) ==>
        reply == if call.caller == Str(c.owner) && call.key == Str(c.key) then Claimed(c, true)
                 else Refused(Conflict, HeldBy(c.owner, c.expiresAt))
    else
      reply.Claimed? && !reply.replayed && IsOwed(call, reply.claim)
  }

  /** The right answer to a release call over a ledger. */
  ghost predicate AnswersRelease(env: Env, rs: seq<Value>, call: Call, reply: Reply)
    requires call.ReleaseTask?
  {
    if !IsIdentity(env, call.caller) then reply == Refused(BadArgs, BadIdentity)
    else if !IsTaskId(call.taskId) then reply == Refused(BadArgs, BadTaskId)
    else if !IsClaimId(call.claimId) then reply == Refused(BadArgs, BadClaimId)
    else if IsHeld(env, rs, call.taskId.s, call.now) then
      forall c :: Occupies(env, rs, call.taskId.s, c, call.now) ==>
        reply == if call.caller != Str(c.owner) then Refused(Conflict, HeldBy(c.owner, c.expiresAt))
                 else if call.claimId != Str(c.claimId) then Refused(Conflict, OtherClaim)
                 else Released(c.taskId, c.claimId, c.owner, true, Timestamp(call.now))
    else
      reply == Released(call.taskId.s, call.claimId.s, call.caller.s, false, Timestamp(call.now))
  }

  ghost predicate Answers(env: Env, rs: seq<Value>, call: Call, reply: Reply) {
    if call.ClaimTask? then AnswersClaim(env, rs, call, reply) else AnswersRelease(env, rs, call, reply)
  }

  /** A task is held at `now` by its entry among the active claims, and by nothing else. */
  lemma HeldIsActive(env: Env, rs: seq<Value>, taskId: string, c: Claim, now: int)
    requires Replay(env, rs).Some?
    ensures Occupies(env, rs, taskId, c, now) <==>
              taskId in Active(env, rs, now).value && Active(env, rs, now).value[taskId] == c
  {
    hide EventOf, InForce, Expiry, Replay;
    ReplayIsLastEvent(env, rs, c);
    if taskId in Replay(env, rs).value { HeldNamesTask(env, rs, taskId); }
  }

  lemma IsHeldIsActive(env: Env, rs: seq<Value>, taskId: string, now: int)
    requires Replay(env, rs).Some?
    ensures IsHeld(env, rs, taskId, now) <==> taskId in Active(env, rs, now).value
  {
    hide Active, Occupies;
    ActiveAt(env, rs, now);
    if taskId in Active(env, rs, now).value { HeldIsActive(env, rs, taskId, Active(env, rs, now).value[taskId], now); }
    if IsHeld(env, rs, taskId, now) {
      var c :| Occupies(env, rs, taskId, c, now);
      HeldIsActive(env, rs, taskId, c, now);
    }
  }

  lemma ValidStrings(env: Env, call: Call)
    ensures call.ClaimTask? && ClaimRefusal(env, call).None? ==>
              call.caller.Str? && call.taskId.Str? && call.key.Str? && call.minutes.Int?
    ensures call.ReleaseTask? && ReleaseRefusal(env, call).None? ==>
              call.caller.Str? && call.taskId.Str? && call.claimId.Str?
  {
  }

  lemma GrantIsOwed(env: Env, rs: seq<Value>, call: Call)
    requires Grants(env, call, rs)
    ensures IsOwed(call, NewClaim(call))
  {
    hide Start, Expiry, Timestamp, Floor, ValidTerm, IsIdentity, IsTaskId, IsKey, IsClaimId, Active;
    ValidStrings(env, call);
    GrantedTerm(env, call, rs);
  }

  lemma ClaimIsAnswered(env: Env, rs: seq<Value>, call: Call)
    requires call.ClaimTask? && Replay(env, rs).Some? && Decision(env, call, rs).Decide?
    ensures AnswersClaim(env, rs, call, Decision(env, call, rs).value)
  {
    hide Active, Occupies, IsHeld, ClaimRecord, IsIdentity, IsTaskId, IsKey, IsClaimId, IsOwed, NewClaim;
    ActiveAt(env, rs, call.now);
    ValidStrings(env, call);
    if ClaimRefusal(env, call).None? {
      IsHeldIsActive(env, rs, call.taskId.s, call.now);
      forall c ensures Occupies(env, rs, call.taskId.s, c, call.now) <==>
          call.taskId.s in Active(env, rs, call.now).value && Active(env, rs, call.now).value[call.taskId.s] == c
      {
        HeldIsActive(env, rs, call.taskId.s, c, call.now);
      }
      if call.taskId.s !in Active(env, rs, call.now).value { GrantIsOwed(env, rs, call); }
    }
  }

  lemma ActiveAt(env: Env, rs: seq<Value>, now: int)
    requires Replay(env, rs).Some?
    ensures Active(env, rs, now).Some?
  {
  }

  lemma ReleaseIsAnswered(env: Env, rs: seq<Value>, call: Call)
    requires call.ReleaseTask? && Replay(env, rs).Some? && Decision(env, call, rs).Decide?
    ensures AnswersRelease(env, rs, call, Decision(env, call, rs).value)
  {
    hide Active, Occupies, IsHeld, ReleaseRecord, IsIdentity, IsTaskId, IsClaimId, Timestamp;
    ActiveAt(env, rs, call.now);
    ValidStrings(env, call);
    if ReleaseRefusal(env, call).None? {
      IsHeldIsActive(env, rs, call.taskId.s, call.now);
      forall c ensures Occupies(env, rs, call.taskId.s, c, call.now) ==>
          && c.taskId == call.taskId.s
          && call.taskId.s in Active(env, rs, call.now).value && Active(env, rs, call.now).value[call.taskId.s] == c
      {
        HeldIsActive(env, rs, call.taskId.s, c, call.now);
        if Occupies(env, rs, call.taskId.s, c, call.now) { OccupiedTask(env, rs, call.taskId.s, c, call.now); }
      }
    }
  }

  lemma OccupiedTask(env: Env, rs: seq<Value>, taskId: string, c: Claim, now: int)
    requires Occupies(env, rs, taskId, c, now)
    ensures c.taskId == taskId
  {
  }

  /** Over any readable ledger every decision gives the caller the right answer. */
  lemma DecisionAnswers(env: Env, rs: seq<Value>, call: Call)
    requires Replay(env, rs).Some? && Decision(env, call, rs).Decide?
    ensures Answers(env, rs, call, Decision(env, call, rs).value)
  {
    hide Decision, AnswersClaim, AnswersRelease, Replay;
    if call.ClaimTask? { ClaimIsAnswered(env, rs, call); } else { ReleaseIsAnswered(env, rs, call); }
  }

  /** A call goes undecided only if it is owed a grant and its ID or its end cannot be written. */
  lemma DecidedExactly(env: Env, rs: seq<Value>, call: Call)
    requires Replay(env, rs).Some?
    ensures Decision(env, call, rs).Raise? <==>
              && call.ClaimTask? && ValidClaim(env, call) && !IsHeld(env, rs, call.taskId.s, call.now)
              && !(IsClaimId(Str(call.freshId)) && IsInstant(call.now + call.minutes.n * 60_000_000))
  {
    hide Active, IsHeld, ClaimRecord, ReleaseRecord, IsIdentity, IsTaskId, IsKey, IsClaimId, NewClaim, Timestamp, IsInstant;
    ActiveAt(env, rs, call.now);
    ValidStrings(env, call);
    if call.ClaimTask? && ClaimRefusal(env, call).None? { IsHeldIsActive(env, rs, call.taskId.s, call.now); }
  }

  // What arguments and records mean

  /** The argument checks character by character. */
  lemma ArgumentsMean(env: Env, v: Value)
    ensures IsIdentity(env, v) <==>
              v.Str? && 1 <= |v.s| <= 160 && forall i :: 0 <= i < |v.s| ==> env.printable(v.s[i]) && 32 <= v.s[i] as int != 127
    ensures IsTaskId(v) <==>
              && v.Str? && 1 <= |v.s| <= 256 && !IsWhiteSpace(v.s[0]) && !IsWhiteSpace(v.s[|v.s| - 1])
              && forall i :: 0 <= i < |v.s| ==> 32 <= v.s[i] as int != 127
    ensures IsKey(v) <==>
              v.Str? && 8 <= |v.s| <= 64 && forall i :: 0 <= i < |v.s| ==> IsAlphanumeric(v.s[i]) || v.s[i] in {'.', '_', '-'}
    ensures IsClaimId(v) <==>
              v.Str? && |v.s| == 24 && forall i :: 0 <= i < |v.s| ==> IsAlphanumeric(v.s[i]) || v.s[i] in {'_', '-'}
  {
    hide IsWhiteSpace;
    if IsKey(v) { assert forall i :: 0 <= i < |v.s| ==> IsKeyChar(v.s[i]); }
  }

  /** The record grants `c`: every field is there and valid, and the term is positive and at most a day. */
  ghost predicate GrantsClaim(env: Env, r: Value, c: Claim) {
    && Get(r, "tool") == Str("claim_task") && Get(r, "schema_version") == Int(1) && Get(r, "outcome") == Str("claimed")
    && Get(Get(r, "args"), "task_id") == Str(c.taskId) && Get(Get(r, "args"), "idempotency_key") == Str(c.key)
    && Get(r, "caller_identity") == Str(c.owner) && Get(r, "claim_id") == Str(c.claimId)
    && Get(r, "claimed_at") == Str(c.claimedAt) && Get(r, "expires_at") == Str(c.expiresAt)
    && IsTaskId(Str(c.taskId)) && IsKey(Str(c.key)) && IsIdentity(env, Str(c.owner)) && IsClaimId(Str(c.claimId))
    && ParseTimestamp(c.claimedAt).Some? && ParseTimestamp(c.expiresAt).Some?
    && 0 < ParseTimestamp(c.expiresAt).value - ParseTimestamp(c.claimedAt).value <= 1440 * 60_000_000
  }

  /** The record releases a claim: every field is there and valid. */
  ghost predicate ReleasesClaim(env: Env, r: Value, taskId: string, claimId: string, owner: string) {
    && Get(r, "tool") == Str("release_task") && Get(r, "schema_version") == Int(1) && Get(r, "outcome") == Str("released")
    && Get(Get(r, "args"), "task_id") == Str(taskId) && Get(Get(r, "args"), "claim_id") == Str(claimId)
    && Get(r, "caller_identity") == Str(owner)
    && IsTaskId(Str(taskId)) && IsClaimId(Str(claimId)) && IsIdentity(env, Str(owner))
  }

  /** The record is of another tool, or of this version and neither a grant nor a release. */
  ghost predicate IsBeside(r: Value) {
    var tool, outcome := Get(r, "tool"), Get(r, "outcome");
    && !tool.Arr? && !tool.Obj?
    && (tool in {Str("claim_task"), Str("release_task")} ==>
          && Get(r, "schema_version") == Int(1)
          && !(tool == Str("claim_task") && outcome == Str("claimed"))
          && !(tool == Str("release_task") && outcome == Str("released")))
  }

  lemma StringsOnly(env: Env, v: Value)
    ensures IsTaskId(v) || IsKey(v) || IsClaimId(v) || IsIdentity(env, v) ==> v.Str?
  {
  }

  predicate SaysClaimed(r: Value) {
    Get(r, "tool") == Str("claim_task") && Get(r, "schema_version") == Int(1) && Get(r, "outcome") == Str("claimed")
  }

  predicate SaysReleased(r: Value) {
    Get(r, "tool") == Str("release_task") && Get(r, "schema_version") == Int(1) && Get(r, "outcome") == Str("released")
  }

  lemma GrantOfMeans(env: Env, r: Value, c: Claim)
    requires SaysClaimed(r)
    ensures GrantOf(env, r) == Grant(c) <==> GrantsClaim(env, r, c)
    ensures GrantOf(env, r).Grant? || GrantOf(env, r).Malformed?
  {
    hide Get, ParseTimestamp, IsTaskId, IsKey, IsIdentity, IsClaimId;
    var args := Get(r, "args");
    StringsOnly(env, Get(args, "task_id"));
    StringsOnly(env, Get(args, "idempotency_key"));
    StringsOnly(env, Get(r, "caller_identity"));
    StringsOnly(env, Get(r, "claim_id"));
  }

  lemma DropOfMeans(env: Env, r: Value, t: string, i: string, o: string)
    requires SaysReleased(r)
    ensures DropOf(env, r) == Drop(t, i, o) <==> ReleasesClaim(env, r, t, i, o)
    ensures DropOf(env, r).Drop? || DropOf(env, r).Malformed?
  {
    hide Get, IsTaskId, IsKey, IsIdentity, IsClaimId;
    var args := Get(r, "args");
    StringsOnly(env, Get(args, "task_id"));
    StringsOnly(env, Get(args, "claim_id"));
    StringsOnly(env, Get(r, "caller_identity"));
  }

  lemma EventCases(env: Env, r: Value)
    ensures SaysClaimed(r) ==> EventOf(env, r) == GrantOf(env, r) && !SaysReleased(r) && !IsBeside(r)
    ensures SaysReleased(r) ==> EventOf(env, r) == DropOf(env, r) && !IsBeside(r)
    ensures !SaysClaimed(r) && !SaysReleased(r) ==> EventOf(env, r) == if IsBeside(r) then Skip else Malformed
  {
    hide Get, GrantOf, DropOf;
    assert |"claim_task"| != |"release_task"|;
  }

  lemma RecordsSay(env: Env, r: Value)
    ensures forall c :: GrantsClaim(env, r, c) ==> SaysClaimed(r)
    ensures forall t, i, o :: ReleasesClaim(env, r, t, i, o) ==> SaysReleased(r)
  {
    hide Get, ParseTimestamp, IsTaskId, IsKey, IsIdentity, IsClaimId;
  }

  /** What any ledger record means to the replay: a valid grant or release, something beside the claims, or else an error. */
  lemma RecordsMean(env: Env, r: Value)
    ensures forall c :: EventOf(env, r) == Grant(c) <==> GrantsClaim(env, r, c)
    ensures forall t, i, o :: EventOf(env, r) == Drop(t, i, o) <==> ReleasesClaim(env, r, t, i, o)
    ensures EventOf(env, r) == Skip <==> IsBeside(r)
  {
    hide EventOf, GrantOf, DropOf, SaysClaimed, SaysReleased, IsBeside, GrantsClaim, ReleasesClaim;
    EventCases(env, r);
    RecordsSay(env, r);
    if SaysClaimed(r) {
      forall c ensures GrantOf(env, r) == Grant(c) <==> GrantsClaim(env, r, c) { GrantOfMeans(env, r, c); }
      GrantOfMeans(env, r, Claim("", "", "", "", "", ""));
    }
    if SaysReleased(r) {
      forall t, i, o ensures DropOf(env, r) == Drop(t, i, o) <==> ReleasesClaim(env, r, t, i, o) { DropOfMeans(env, r, t, i, o); }
      DropOfMeans(env, r, "", "", "");
    }
  }

  // What the decision leaves in the ledger

  /** The outcome recorded for an answer. */
  function OutcomeText(r: Reply): string {
    match r
    case Claimed(_, replayed) => if replayed then "replayed" else "claimed"
    case Released(_, _, _, released, _) => if released then "released" else "not_claimed"
    case Refused(BadArgs, _) => "bad_args"
    case Refused(NotFound, _) => "not_found"
    case Refused(Conflict, _) => "conflict"
    case Refused(UpstreamUnavailable, _) => "upstream_unavailable"
  }

  function OutcomeWord(r: Reply): Word {
    match r
    case Claimed(_, replayed) => if replayed then WasReplayed else WasClaimed
    case Released(_, _, _, released, _) => if released then WasReleased else NotClaimed
    case Refused(code, _) => OutcomeOf(code)
  }

  lemma OutcomeIsText(r: Reply)
    ensures Text(OutcomeWord(r)) == OutcomeText(r)
  {
  }

  /** The record tells what the caller is told: tool, time, outcome, and for a claim its ID and term. */
  lemma RecordTells(env: Env, rs: seq<Value>, call: Call)
    requires Decision(env, call, rs).Decide?
    ensures var Decide(record, reply) := Decision(env, call, rs);
            && Get(record, "tool") == Str(if call.ClaimTask? then "claim_task" else "release_task")
            && Get(record, "timestamp") == Str(Timestamp(call.now))
            && Get(record, "snapshot_commit") == Str(env.commit)
            && Get(record, "outcome") == Str(OutcomeText(reply))
            && (reply.Claimed? ==>
                  && Get(record, "claim_id") == Str(reply.claim.claimId)
                  && Get(record, "claimed_at") == Str(reply.claim.claimedAt)
                  && Get(record, "expires_at") == Str(reply.claim.expiresAt))
  {
    hide DecideClaim, DecideRelease, Get, Timestamp, ClaimRecord, ReleaseRecord, OutcomeWord, OutcomeText;
    OutcomeIsText(Decision(env, call, rs).value);
    if call.ClaimTask? {
      var term, outcome := ClaimDecided(env, rs, call);
      ClaimFields(env, call, term, outcome, Tool);
      ClaimFields(env, call, term, outcome, Stamp);
      ClaimFields(env, call, term, outcome, SnapshotCommit);
      ClaimFields(env, call, term, outcome, Outcome);
      TermFields(env, call, term, outcome);
    } else {
      var outcome := ReleaseDecided(env, rs, call);
      ReleaseFields(env, call, outcome, Tool);
      ReleaseFields(env, call, outcome, Stamp);
      ReleaseFields(env, call, outcome, SnapshotCommit);
      ReleaseFields(env, call, outcome, Outcome);
    }
  }

  lemma ClaimDecided(env: Env, rs: seq<Value>, call: Call) returns (term: Term, outcome: Word)
    requires call.ClaimTask? && DecideClaim(env, call, rs).Decide?
    ensures var Decide(record, reply) := DecideClaim(env, call, rs);
            && record == ClaimRecord(env, call, term, outcome)
            && outcome == OutcomeWord(reply) && !reply.Released?
            && (reply.Claimed? ==> term == TermOf(reply.claim))
  {
    hide Active, ClaimRecord, IsClaimId, NewClaim;
    match ClaimRefusal(env, call)
    case Some(refusal) =>
      term, outcome := NoTerm, OutcomeOf(refusal.code);
    case None =>
      var active := Active(env, rs, call.now).value;
      if call.taskId.s in active {
        var held := active[call.taskId.s];
        if held.owner == call.caller.s && held.key == call.key.s {
          term, outcome := TermOf(held), WasReplayed;
        } else {
          term, outcome := NoTerm, ConflictOutcome;
        }
      } else {
        term, outcome := TermOf(NewClaim(call)), WasClaimed;
      }
  }

  lemma ReleaseDecided(env: Env, rs: seq<Value>, call: Call) returns (outcome: Word)
    requires call.ReleaseTask? && DecideRelease(env, call, rs).Decide?
    ensures var Decide(record, reply) := DecideRelease(env, call, rs);
            record == ReleaseRecord(env, call, outcome) && outcome == OutcomeWord(reply) && !reply.Claimed?
  {
    hide Active, ReleaseRecord, Timestamp;
    match ReleaseRefusal(env, call)
    case Some(refusal) =>
      outcome := OutcomeOf(refusal.code);
    case None =>
      var active := Active(env, rs, call.now).value;
      if call.taskId.s !in active {
        outcome := NotClaimed;
      } else if active[call.taskId.s].owner != call.caller.s || active[call.taskId.s].claimId != call.claimId.s {
        outcome := ConflictOutcome;
      } else {
        outcome := WasReleased;
      }
  }

  lemma TermFields(env: Env, call: Call, term: Term, outcome: Word)
    requires call.ClaimTask?
    ensures term.Term? ==>
              var r := ClaimRecord(env, call, term, outcome);
              && Get(r, "claim_id") == Str(term.claimId)
              && Get(r, "claimed_at") == Str(term.claimedAt)
              && Get(r, "expires_at") == Str(term.expiresAt)
  {
    hide Get, ClaimRecord, ClaimHead, ClaimArgs;
    ClaimFields(env, call, term, outcome, ClaimId);
    ClaimFields(env, call, term, outcome, ClaimedAt);
    ClaimFields(env, call, term, outcome, ExpiresAt);
    HeadFields(env, call, term, ClaimId);
    HeadFields(env, call, term, ClaimedAt);
    HeadFields(env, call, term, ExpiresAt);
  }

  /** A claim call that answers with a new claim puts that one in force for its task; any other changes no claim. */
  lemma ClaimTakesEffect(env: Env, rs: seq<Record>, call: Call, c: Claim)
    requires call.ClaimTask? && Replay(env, rs).Some? && Decision(env, call, rs).Decide?
    ensures var Decide(record, reply) := Decision(env, call, rs);
            IsInForce(env, rs + [record], c) <==>
              if reply.Claimed? && !reply.replayed && reply.claim.taskId == c.taskId then c == reply.claim
              else IsInForce(env, rs, c)
  {
    hide EventOf, InForce, Replay, Decision;
    var record := Decision(env, call, rs).record;
    ReplayStep(env, rs, call);
    ReplayIsLastEvent(env, rs, c);
    ReplayIsLastEvent(env, rs + [record], c);
    ClaimedIsGranted(env, rs, call);
  }

  lemma ClaimedIsGranted(env: Env, rs: seq<Record>, call: Call)
    requires call.ClaimTask? && Decision(env, call, rs).Decide?
    ensures var reply := Decision(env, call, rs).value;
            Effect(env, call, rs) == if reply.Claimed? && !reply.replayed then Grant(reply.claim) else Skip
  {
    hide Active, ClaimRecord, Timestamp, ClaimRefusal, IsClaimId;
  }

  /** A release that says so ends every claim of its task; one that says otherwise, or is refused, changes no claim. */
  lemma ReleaseTakesEffect(env: Env, rs: seq<Record>, call: Call, c: Claim)
    requires call.ReleaseTask? && Replay(env, rs).Some? && Decision(env, call, rs).Decide?
    ensures var Decide(record, reply) := Decision(env, call, rs);
            IsInForce(env, rs + [record], c) <==>
              IsInForce(env, rs, c) && !(reply.Released? && reply.released && reply.taskId == c.taskId)
  {
    hide EventOf, InForce, Replay, Decision;
    var record := Decision(env, call, rs).record;
    ReplayStep(env, rs, call);
    ReplayIsLastEvent(env, rs, c);
    ReplayIsLastEvent(env, rs + [record], c);
    ReleasedIsDropped(env, rs, call);
  }

  lemma ReleasedIsDropped(env: Env, rs: seq<Record>, call: Call)
    requires call.ReleaseTask? && Decision(env, call, rs).Decide?
    ensures var reply := Decision(env, call, rs).value;
            Effect(env, call, rs) ==
              if reply.Released? && reply.released then Drop(reply.taskId, reply.claimId, reply.owner) else Skip
  {
    hide Active, ReleaseRecord, Timestamp, ReleaseRefusal;
  }

  // Through the file

  ghost predicate Succeeded(env: Env, requests: seq<Request>, k: nat)
    requires k < |requests|
  {
    Transaction(Served(env, requests[..k]), Decider(env, requests[k].call), requests[k].system).0.Ok?
  }

  /**
   Whatever failed before: a call whose transaction succeeds is told the right answer over the ledger it
   found, and one more record saying so is in the file; any other call is told that the service is unavailable.
  */
  lemma RepliesAreRight(env: Env, requests: seq<Request>, k: nat)
    requires k < |requests|
    ensures var before, after := ServedLedger(env, requests[..k]).records, ServedLedger(env, requests[..k + 1]).records;
            if Succeeded(env, requests, k) then
              && Answers(env, before, requests[k].call, ReplyTo(env, requests, k))
              && |after| == |before| + 1 && after[..|before|] == before
              && Get(after[|before|], "outcome") == Str(OutcomeText(ReplyTo(env, requests, k)))
            else ReplyTo(env, requests, k) == Refused(UpstreamUnavailable, Detail.Unavailable)
  {
    hide Decision, Answers, ServedLedger, Served, Transaction, Replay, Get, OutcomeText;
    if Succeeded(env, requests, k) {
      AnsweredIsRecorded(env, requests, k);
      var rs, call := ServedLedger(env, requests[..k]).records, requests[k].call;
      DecisionAnswers(env, rs, call);
      RecordTells(env, rs, call);
    }
  }
}
