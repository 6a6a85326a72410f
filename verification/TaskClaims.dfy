/** Expiring ownership claims over committed tasks, decided by replaying an append-only ledger. */
module TaskClaims {
  import opened Basics
  import opened Json
  import opened Timestamps
  import opened Audit

  const MIN_CLAIM_MINUTES := 15
  const MAX_CLAIM_MINUTES := 1440

  datatype Status = Open | Blocked | Done

  /**
   What the service is configured with: the committed tasks, the snapshot's commit, and the
   characters that str.isprintable accepts (any set will do for what is proved here).
  */
  datatype Env = Env(tasks: map<string, Status>, commit: string, printable: char -> bool)

  datatype Claim = Claim(taskId: string, claimId: string, owner: string, key: string,
                         claimedAt: string, expiresAt: string)

  datatype Code = BadArgs | NotFound | Conflict | UpstreamUnavailable

  datatype Detail =
    | BadIdentity | BadTaskId | BadKey | BadDuration | BadClaimId | NoSuchTask | TaskDone
    | HeldBy(owner: string, expiresAt: string) | OtherClaim | Unavailable

  datatype Reply =
    | Claimed(claim: Claim, replayed: bool)
    | Released(taskId: string, claimId: string, owner: string, released: bool, releasedAt: string)
    | Refused(code: Code, detail: Detail)

  /** One tool call with its clock reading; a claim also with what the claim ID generator returns. */
  datatype Call =
    | ClaimTask(taskId: Value, minutes: Value, key: Value, caller: Value, now: Instant, freshId: string)
    | ReleaseTask(taskId: Value, claimId: Value, caller: Value, now: Instant)

  /** The field names and fixed values of ledger records. */
  datatype Word =
    | Args | CallerIdentity | ClaimId | ClaimedAt | ExpiresAt | Outcome | SchemaVersion | SnapshotCommit
    | Stamp | Tool | DurationMinutes | IdempotencyKey | TaskId
    | ClaimTool | ReleaseTool | WasClaimed | WasReplayed | WasReleased | NotClaimed
    | BadArgsOutcome | NotFoundOutcome | ConflictOutcome | UpstreamOutcome

  function Text(w: Word): string {
    match w
    case Args => "args"
    case CallerIdentity => "caller_identity"
    case ClaimId => "claim_id"
    case ClaimedAt => "claimed_at"
    case ExpiresAt => "expires_at"
    case Outcome => "outcome"
    case SchemaVersion => "schema_version"
    case SnapshotCommit => "snapshot_commit"
    case Stamp => "timestamp"
    case Tool => "tool"
    case DurationMinutes => "duration_minutes"
    case IdempotencyKey => "idempotency_key"
    case TaskId => "task_id"
    case ClaimTool => "claim_task"
    case ReleaseTool => "release_task"
    case WasClaimed => "claimed"
    case WasReplayed => "replayed"
    case WasReleased => "released"
    case NotClaimed => "not_claimed"
    case BadArgsOutcome => "bad_args"
    case NotFoundOutcome => "not_found"
    case ConflictOutcome => "conflict"
    case UpstreamOutcome => "upstream_unavailable"
  }

  /** The length, third and last character of a word tell it from the others. */
  function Mark(w: Word): (nat, char, char) {
    match w
    case Args => (4, 'g', 's')
    case CallerIdentity => (15, 'l', 'y')
    case ClaimId => (8, 'a', 'd')
    case ClaimedAt => (10, 'a', 't')
    case ExpiresAt => (10, 'p', 't')
    case Outcome => (7, 't', 'e')
    case SchemaVersion => (14, 'h', 'n')
    case SnapshotCommit => (15, 'a', 't')
    case Stamp => (9, 'm', 'p')
    case Tool => (4, 'o', 'l')
    case DurationMinutes => (16, 'r', 's')
    case IdempotencyKey => (15, 'e', 'y')
    case TaskId => (7, 's', 'd')
    case ClaimTool => (10, 'a', 'k')
    case ReleaseTool => (12, 'l', 'k')
    case WasClaimed => (7, 'a', 'd')
    case WasReplayed => (8, 'p', 'd')
    case WasReleased => (8, 'l', 'd')
    case NotClaimed => (11, 't', 'd')
    case BadArgsOutcome => (8, 'd', 's')
    case NotFoundOutcome => (9, 't', 'd')
    case ConflictOutcome => (8, 'n', 't')
    case UpstreamOutcome => (20, 's', 'e')
  }

  lemma TextMark(w: Word)
    ensures |Text(w)| >= 4 && (|Text(w)|, Text(w)[2], Text(w)[|Text(w)| - 1]) == Mark(w)
  {
  }

  lemma WordsDiffer(a: Word, b: Word)
    requires Text(a) == Text(b)
    ensures a == b
  {
    hide Text;
    TextMark(a);
    TextMark(b);
  }

  // Argument validators

  predicate IsIdentity(env: Env, v: Value) {
    && v.Str? && 1 <= |v.s| <= 160
    && (forall i :: 0 <= i < |v.s| ==> env.printable(v.s[i])) && NoControl(v.s)
  }

  predicate IsTaskId(v: Value) {
    && v.Str? && 1 <= |v.s| <= 256
    && IsStripped(v.s) && NoControl(v.s)
  }

  predicate IsKey(v: Value) {
    v.Str? && 8 <= |v.s| <= 64 && forall i :: 0 <= i < |v.s| ==> IsKeyChar(v.s[i])
  }

  predicate IsDuration(v: Value) {
    v.Int? && MIN_CLAIM_MINUTES <= v.n <= MAX_CLAIM_MINUTES
  }

  predicate IsClaimId(v: Value) {
    v.Str? && |v.s| == 24 && forall i :: 0 <= i < |v.s| ==> IsAlphanumeric(v.s[i]) || v.s[i] == '_' || v.s[i] == '-'
  }

  // Replay

  /** What one ledger record means to the replay. */
  datatype Event =
    | Skip
    | Malformed
    | Grant(claim: Claim)
    | Drop(taskId: string, claimId: string, owner: string)

  /** Both stored instants parse, the second is later, and by at most the longest duration. */
  predicate ValidTerm(claimedAt: string, expiresAt: string) {
    match (ParseTimestamp(claimedAt), ParseTimestamp(expiresAt))
    case (Some(start), Some(expiry)) => start < expiry <= start + MAX_CLAIM_MINUTES * MINUTE
    case _ => false
  }

  function EventOf(env: Env, r: Value): Event {
    var tool := Get(r, Text(Tool));
    if tool.Arr? || tool.Obj? then Malformed
    else if tool != Str(Text(ClaimTool)) && tool != Str(Text(ReleaseTool)) then Skip
    else if Get(r, Text(SchemaVersion)) != Int(1) then Malformed
    else if tool == Str(Text(ClaimTool)) && Get(r, Text(Outcome)) == Str(Text(WasClaimed)) then GrantOf(env, r)
    else if tool == Str(Text(ReleaseTool)) && Get(r, Text(Outcome)) == Str(Text(WasReleased)) then DropOf(env, r)
    else Skip
  }

  function GrantOf(env: Env, r: Value): Event {
    var args := Get(r, Text(Args));
    var taskId, key := Get(args, Text(TaskId)), Get(args, Text(IdempotencyKey));
    var owner, claimId := Get(r, Text(CallerIdentity)), Get(r, Text(ClaimId));
    var claimedAt, expiresAt := Get(r, Text(ClaimedAt)), Get(r, Text(ExpiresAt));
    if IsTaskId(taskId) && IsKey(key) && IsIdentity(env, owner) && IsClaimId(claimId) &&
       claimedAt.Str? && expiresAt.Str? && ValidTerm(claimedAt.s, expiresAt.s)
    then Grant(Claim(taskId.s, claimId.s, owner.s, key.s, claimedAt.s, expiresAt.s))
    else Malformed
  }

  function DropOf(env: Env, r: Value): Event {
    var args := Get(r, Text(Args));
    var taskId, claimId, owner := Get(args, Text(TaskId)), Get(args, Text(ClaimId)), Get(r, Text(CallerIdentity));
    if IsTaskId(taskId) && IsClaimId(claimId) && IsIdentity(env, owner)
    then Drop(taskId.s, claimId.s, owner.s)
    else Malformed
  }

  type Claims = map<string, Claim>

  /** The effect of one event on the claims; None where the replay raises. */
  function Apply(claims: Claims, e: Event): Option<Claims> {
    match e
    case Skip => Some(claims)
    case Malformed => None
    case Grant(c) => Some(claims[c.taskId := c])
    case Drop(taskId, claimId, owner) =>
      if taskId in claims && claims[taskId].claimId == claimId && claims[taskId].owner == owner
      then Some(claims - {taskId})
      else None
  }

  /** The claims a ledger leaves, expired ones included. */
  function Replay(env: Env, records: seq<Value>): Option<Claims> {
    if records == [] then Some(map[])
    else
      match Replay(env, records[..|records| - 1])
      case None => None
      case Some(claims) => Apply(claims, EventOf(env, records[|records| - 1]))
  }

  /** When a claim ends; the replay has checked that the text parses. */
  function Expiry(c: Claim): int {
    match ParseTimestamp(c.expiresAt) case Some(t) => t case None => 0
  }

  function Start(c: Claim): int {
    match ParseTimestamp(c.claimedAt) case Some(t) => t case None => 0
  }

  /** The claims still running at `now`. */
  function Unexpired(claims: Claims, now: int): Claims {
    map t | t in claims && Expiry(claims[t]) > now :: claims[t]
  }

  /** _ledger_claims: the unexpired claims of a ledger; None where it raises. */
  function Active(env: Env, records: seq<Value>, now: int): Option<Claims> {
    match Replay(env, records)
    case None => None
    case Some(claims) => Some(Unexpired(claims, now))
  }

  /** _ledger_claims as its loop runs it. */
  method LedgerClaims(env: Env, records: seq<Value>, now: int) returns (r: Option<Claims>)
    ensures r == Active(env, records, now)
  {
    var claims: Claims := map[];
    for i := 0 to |records|
      invariant Replay(env, records[..i]) == Some(claims)
    {
      assert records[..i + 1][..i] == records[..i];
      var e := EventOf(env, records[i]);
      if e.Malformed? {
        RaisesEarlier(env, records, i + 1);
        return None;
      } else if e.Grant? {
        claims := claims[e.claim.taskId := e.claim];
      } else if e.Drop? {
        if e.taskId !in claims || claims[e.taskId].claimId != e.claimId || claims[e.taskId].owner != e.owner {
          RaisesEarlier(env, records, i + 1);
          return None;
        }
        claims := claims - {e.taskId};
      }
    }
    assert records[..|records|] == records;
    r := Some(Unexpired(claims, now));
  }

  lemma {:induction false} RaisesEarlier(env: Env, records: seq<Value>, k: nat)
    requires k <= |records| && Replay(env, records[..k]) == None
    ensures Replay(env, records) == None
    decreases |records|
  {
    if k == |records| {
      assert records[..k] == records;
    } else {
      assert records[..|records| - 1][..k] == records[..k];
      RaisesEarlier(env, records[..|records| - 1], k);
    }
  }

  // Ledger records

  /** The prefix of a string argument that is recorded; for a valid argument, all of it. */
  function Recorded(v: Value, limit: nat): (r: Value)
    ensures r.Null? || (r.Str? && |r.s| <= limit)
    ensures v.Str? && |v.s| <= limit ==> r == v
    ensures v.Str? <==> r.Str?
    ensures v.Str? && |v.s| > limit ==> |r.s| == limit && r.s <= v.s
  {
    if v.Str? then Str(if |v.s| > limit then v.s[..limit] else v.s) else Null
  }

  function OutcomeOf(code: Code): Word {
    match code
    case BadArgs => BadArgsOutcome
    case NotFound => NotFoundOutcome
    case Conflict => ConflictOutcome
    case UpstreamUnavailable => UpstreamOutcome
  }

  datatype Term = NoTerm | Term(claimId: string, claimedAt: string, expiresAt: string)

  function Empty(): Record { Obj([]) }

  /** A record with one more field at its end. */
  function Add(r: Record, w: Word, v: Value): Record
    requires NoFloat(v)
  {
    Obj(r.fields + [Field(Text(w), v)])
  }

  lemma FieldOfMore(fields: seq<Field>, f: Field, key: string)
    ensures FieldOf(fields + [f], key) == if f.key == key then f.value else FieldOf(fields, key)
  {
    assert (fields + [f])[..|fields|] == fields;
  }

  lemma GetAdd(r: Record, w: Word, v: Value, x: Word)
    requires NoFloat(v)
    ensures Get(Add(r, w, v), Text(x)) == if x == w then v else Get(r, Text(x))
  {
    hide Text, NoFloat, FieldOf;
    FieldOfMore(r.fields, Field(Text(w), v), Text(x));
    if Text(x) == Text(w) { WordsDiffer(x, w); }
  }

  /** The args object of a claim record; the duration is recorded once every argument is valid. */
  function ClaimArgs(env: Env, call: Call): Record
    requires call.ClaimTask?
  {
    var valid := IsIdentity(env, call.caller) && IsTaskId(call.taskId) && IsKey(call.key) && IsDuration(call.minutes);
    Add(Add(Add(Empty(),
      DurationMinutes, if valid then call.minutes else Null),
      IdempotencyKey, Recorded(call.key, 64)),
      TaskId, Recorded(call.taskId, 256))
  }

  /** The fields of a claim record up to expires_at. */
  function ClaimHead(env: Env, call: Call, term: Term): Record
    requires call.ClaimTask?
  {
    Add(Add(Add(Add(Add(Empty(),
      Args, ClaimArgs(env, call)),
      CallerIdentity, Recorded(call.caller, 160)),
      ClaimId, if term.Term? then Str(term.claimId) else Null),
      ClaimedAt, if term.Term? then Str(term.claimedAt) else Null),
      ExpiresAt, if term.Term? then Str(term.expiresAt) else Null)
  }

  /** The record of a claim call; fields in sorted order, as sort_keys writes them. */
  function ClaimRecord(env: Env, call: Call, term: Term, outcome: Word): Record
    requires call.ClaimTask?
  {
    Add(Add(Add(Add(Add(ClaimHead(env, call, term),
      Outcome, Str(Text(outcome))),
      SchemaVersion, Int(1)),
      SnapshotCommit, Str(env.commit)),
      Stamp, Str(Timestamp(call.now))),
      Tool, Str(Text(ClaimTool)))
  }

  function ReleaseArgs(call: Call): Record
    requires call.ReleaseTask?
  {
    Add(Add(Empty(), ClaimId, Recorded(call.claimId, 24)), TaskId, Recorded(call.taskId, 256))
  }

  function ReleaseRecord(env: Env, call: Call, outcome: Word): Record
    requires call.ReleaseTask?
  {
    Add(Add(Add(Add(Add(Add(Add(Empty(),
      Args, ReleaseArgs(call)),
      CallerIdentity, Recorded(call.caller, 160)),
      Outcome, Str(Text(outcome))),
      SchemaVersion, Int(1)),
      SnapshotCommit, Str(env.commit)),
      Stamp, Str(Timestamp(call.now))),
      Tool, Str(Text(ReleaseTool)))
  }

  // Decisions

  /** The message of a refusal. */
  function Message(d: Detail): string {
    match d
    case BadIdentity => "authenticated caller identity is invalid"
    case BadTaskId => "task_id must be an exact printable committed task ID"
    case BadKey => "idempotency_key must be 8..64 characters of letters, digits, dot, underscore, or hyphen"
    case BadDuration => "duration_minutes must be in 15..1440"
    case BadClaimId => "claim_id is invalid; use the value returned by claim_task"
    case NoSuchTask => "the requested committed task was not found"
    case TaskDone => "completed tasks cannot be claimed"
    case HeldBy(owner, expiresAt) => "task is claimed by " + owner + " until " + expiresAt
    case OtherClaim => "claim_id does not match the caller's active claim"
    case Unavailable => "the collaboration service is temporarily unavailable"
  }

  /** The refusals of a claim that do not depend on the ledger, in the order they are tried. */
  function ClaimRefusal(env: Env, call: Call): (r: Option<Reply>)
    requires call.ClaimTask?
    ensures r.Some? ==> r.value.Refused?
    ensures r.None? <==>
              && IsIdentity(env, call.caller) && IsTaskId(call.taskId) && IsKey(call.key) && IsDuration(call.minutes)
              && call.taskId.s in env.tasks && env.tasks[call.taskId.s] != Status.Done
  {
    if !IsIdentity(env, call.caller) then Some(Refused(BadArgs, BadIdentity))
    else if !IsTaskId(call.taskId) then Some(Refused(BadArgs, BadTaskId))
    else if !IsKey(call.key) then Some(Refused(BadArgs, BadKey))
    else if !IsDuration(call.minutes) then Some(Refused(BadArgs, BadDuration))
    else if call.taskId.s !in env.tasks then Some(Refused(NotFound, NoSuchTask))
    else if env.tasks[call.taskId.s] == Status.Done then Some(Refused(Conflict, TaskDone))
    else None
  }

  function ReleaseRefusal(env: Env, call: Call): (r: Option<Reply>)
    requires call.ReleaseTask?
    ensures r.Some? ==> r.value.Refused?
    ensures r.None? <==> IsIdentity(env, call.caller) && IsTaskId(call.taskId) && IsClaimId(call.claimId)
  {
    if !IsIdentity(env, call.caller) then Some(Refused(BadArgs, BadIdentity))
    else if !IsTaskId(call.taskId) then Some(Refused(BadArgs, BadTaskId))
    else if !IsClaimId(call.claimId) then Some(Refused(BadArgs, BadClaimId))
    else None
  }

  /** The claim that a granted call makes. */
  function NewClaim(call: Call): Claim
    requires call.ClaimTask? && call.taskId.Str? && call.key.Str? && call.caller.Str? && call.minutes.Int?
    requires IsInstant(call.now + call.minutes.n * MINUTE)
  {
    Claim(call.taskId.s, call.freshId, call.caller.s, call.key.s,
          Timestamp(call.now), Timestamp(call.now + call.minutes.n * MINUTE))
  }

  function TermOf(c: Claim): Term { Term(c.claimId, c.claimedAt, c.expiresAt) }

  /** The decide callback of claim_task. */
  function DecideClaim(env: Env, call: Call, records: seq<Value>): Verdict<Reply>
    requires call.ClaimTask?
  {
    match ClaimRefusal(env, call)
    case Some(refusal) => Decide(ClaimRecord(env, call, NoTerm, OutcomeOf(refusal.code)), refusal)
    case None =>
      match Active(env, records, call.now)
      case None => Raise
      case Some(active) =>
        if call.taskId.s in active then
          var held := active[call.taskId.s];
          if held.owner == call.caller.s && held.key == call.key.s then
            Decide(ClaimRecord(env, call, TermOf(held), WasReplayed), Claimed(held, true))
          else
            Decide(ClaimRecord(env, call, NoTerm, ConflictOutcome), Refused(Conflict, HeldBy(held.owner, held.expiresAt)))
        else if !IsClaimId(Str(call.freshId)) || !IsInstant(call.now + call.minutes.n * MINUTE) then
          Raise
        else
          Decide(ClaimRecord(env, call, TermOf(NewClaim(call)), WasClaimed), Claimed(NewClaim(call), false))
  }

  /** The decide callback of release_task. */
  function DecideRelease(env: Env, call: Call, records: seq<Value>): Verdict<Reply>
    requires call.ReleaseTask?
  {
    match ReleaseRefusal(env, call)
    case Some(refusal) => Decide(ReleaseRecord(env, call, OutcomeOf(refusal.code)), refusal)
    case None =>
      match Active(env, records, call.now)
      case None => Raise
      case Some(active) =>
        var done := (released: bool) =>
          Released(call.taskId.s, call.claimId.s, call.caller.s, released, Timestamp(call.now));
        if call.taskId.s !in active then
          Decide(ReleaseRecord(env, call, NotClaimed), done(false))
        else
          var held := active[call.taskId.s];
          if held.owner != call.caller.s then
            Decide(ReleaseRecord(env, call, ConflictOutcome), Refused(Conflict, HeldBy(held.owner, held.expiresAt)))
          else if held.claimId != call.claimId.s then
            Decide(ReleaseRecord(env, call, ConflictOutcome),
                   Refused(Conflict, OtherClaim))
          else
            Decide(ReleaseRecord(env, call, WasReleased), done(true))
  }

  function Decision(env: Env, call: Call, records: seq<Value>): Verdict<Reply> {
    if call.ClaimTask? then DecideClaim(env, call, records) else DecideRelease(env, call, records)
  }

  function Decider(env: Env, call: Call): seq<Value> -> Verdict<Reply> {
    records => Decision(env, call, records)
  }

  /** What the caller sees of a transaction: every failure of the ledger is one error. */
  function Answer(r: Result<Reply, Failure>): Reply {
    match r
    case Ok(reply) => reply
    case Err(_) => Refused(UpstreamUnavailable, Detail.Unavailable)
  }

  class TaskClaimService {
    const env: Env
    const audit: AuditLog

    constructor (env: Env, audit: AuditLog)
      ensures this.env == env && this.audit == audit
    {
      this.env := env;
      this.audit := audit;
    }

    /** claim_task and release_task: one locked transaction, answered only once it is durable. */
    method Serve(call: Call, system: System) returns (reply: Reply)
      modifies audit
      ensures (reply, audit.file) ==
              var (r, file) := Transaction(old(audit.file), Decider(env, call), system);
              (Answer(r), file)
    {
      var r := audit.Transact(Decider(env, call), system);
      reply := Answer(r);
    }
  }
}
