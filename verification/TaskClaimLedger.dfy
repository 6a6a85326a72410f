/** Idempotent replay, delayed releases, compaction, and a run whose clock steps back. */
module TaskClaimLedger {
  import opened Basics
  import opened Json
  import opened Timestamps
  import opened Audit
  import opened TaskClaims
  import opened TaskClaimRuns
  import opened TaskClaimSafety

  // Idempotent replay

  predicate Releases(call: Call, c: Claim) {
    call.ReleaseTask? && call.taskId == Str(c.taskId) && call.claimId == Str(c.claimId) && call.caller == Str(c.owner)
  }

  /** A claim outlives every call made before it expires, except its owner's release of it. */
  lemma SurvivesCall(env: Env, rs: seq<Value>, call: Call, more: seq<Value>, c: Claim)
    requires Appended(env, rs, call, more) && Holds(Replay(env, rs).value, c)
    requires call.now < Expiry(c) && !Releases(call, c)
    ensures Holds(Replay(env, more).value, c)
  {
    hide EventOf, Expiry, Replay, Effect;
    var e := Effect(env, call, rs);
    if e.Grant? && e.claim.taskId == c.taskId {
      GrantFacts(env, rs, call, e.claim);
    } else if e.Drop? && e.taskId == c.taskId {
      DropFacts(env, rs, call, e.taskId, e.claimId, e.owner);
      DropIsRelease(env, rs, call, e.taskId, e.claimId, e.owner);
    }
  }

  lemma DropIsRelease(env: Env, rs: seq<Value>, call: Call, taskId: string, claimId: string, owner: string)
    requires Effect(env, call, rs) == Drop(taskId, claimId, owner)
    ensures call.ReleaseTask?
    ensures call.taskId == Str(taskId) && call.claimId == Str(claimId) && call.caller == Str(owner)
  {
    hide Active;
  }

  lemma {:induction false} SurvivesCalls(env: Env, rs: seq<Record>, calls: seq<Call>, c: Claim)
    requires Replay(env, rs).Some? && Holds(Replay(env, rs).value, c)
    requires forall i :: 0 <= i < |calls| ==> calls[i].now < Expiry(c) && !Releases(calls[i], c)
    ensures Replay(env, RunFrom(env, rs, calls)).Some? && Holds(Replay(env, RunFrom(env, rs, calls)).value, c)
    decreases |calls|
  {
    hide Decision, Appended, Replay, Expiry;
    if calls != [] {
      var most, last := calls[..|calls| - 1], calls[|calls| - 1];
      SurvivesCalls(env, rs, most, c);
      var before := RunFrom(env, rs, most);
      if Decision(env, last, before).Decide? {
        DecidedIsAppended(env, before, last);
        AppendedReplays(env, before, last, RunFrom(env, rs, calls));
        SurvivesCall(env, before, last, RunFrom(env, rs, calls), c);
      }
    }
  }

  lemma AppendedReplays(env: Env, rs: seq<Value>, call: Call, more: seq<Value>)
    requires Appended(env, rs, call, more)
    ensures Replay(env, more).Some?
  {
  }

  /**
   While a claim runs, whatever calls come between: the owner's call with the same key gets the
   identical claim back, and every other valid claim call of the task is refused.
  */
  lemma IdempotentReplay(env: Env, rs: seq<Record>, calls: seq<Call>, again: Call, c: Claim)
    requires Replay(env, rs).Some? && Holds(Replay(env, rs).value, c)
    requires forall i :: 0 <= i < |calls| ==> calls[i].now < Expiry(c) && !Releases(calls[i], c)
    requires again.ClaimTask? && ClaimRefusal(env, again).None?
    requires again.taskId.s == c.taskId && again.now < Expiry(c)
    ensures var d := Decision(env, again, RunFrom(env, rs, calls));
            d.Decide? && d.value ==
              if again.caller.s == c.owner && again.key.s == c.key then Claimed(c, true)
              else Refused(Conflict, HeldBy(c.owner, c.expiresAt))
  {
    hide ClaimRefusal, ClaimRecord, Expiry, Replay, NewClaim;
    SurvivesCalls(env, rs, calls, c);
    var now := RunFrom(env, rs, calls);
    assert Active(env, now, again.now).value[c.taskId] == c;
  }

  /** The owner's release of a running claim frees the task, whatever calls come between. */
  lemma ReleaseFrees(env: Env, rs: seq<Record>, calls: seq<Call>, release: Call, c: Claim)
    requires Replay(env, rs).Some? && Holds(Replay(env, rs).value, c)
    requires forall i :: 0 <= i < |calls| ==> calls[i].now < Expiry(c) && !Releases(calls[i], c)
    requires Releases(release, c) && ReleaseRefusal(env, release).None? && release.now < Expiry(c)
    ensures var after := RunFrom(env, rs, calls + [release]);
            Replay(env, after).Some? && c.taskId !in Replay(env, after).value
  {
    hide ReleaseRefusal, Expiry, Replay, EventOf, Decision, Releases;
    SurvivesCalls(env, rs, calls, c);
    Dropped(env, RunFrom(env, rs, calls), release, c);
    var all := calls + [release];
    assert all[..|all| - 1] == calls;
  }

  // Delayed releases

  /** No two grants of the ledger carry the same claim ID. */
  ghost predicate DistinctIds(env: Env, rs: seq<Value>) {
    forall i, j, c, d :: GrantAt(env, rs, i, c) && GrantAt(env, rs, j, d) && c.claimId == d.claimId ==> i == j
  }

  /** With distinct claim IDs, a release only ever removes the very grant whose ID it names. */
  lemma ReleaseNamesItsGrant(env: Env, rs: seq<Value>, call: Call, i: int, c: Claim)
    requires Replay(env, rs).Some? && DistinctIds(env, rs) && GrantAt(env, rs, i, c)
    requires Drops(env, call, rs) && call.claimId.s == c.claimId
    ensures InForce(env, rs, i, c) && call.taskId.s == c.taskId && call.caller.s == c.owner
  {
    hide EventOf, Expiry, Replay, ReleaseRefusal;
    var held := Replay(env, rs).value[call.taskId.s];
    HeldNamesTask(env, rs, call.taskId.s);
    ReplayIsLastEvent(env, rs, held);
    var j :| InForce(env, rs, j, held);
    assert GrantAt(env, rs, j, held);
  }

  lemma {:induction false} HeldNamesTask(env: Env, rs: seq<Value>, taskId: string)
    requires Replay(env, rs).Some? && taskId in Replay(env, rs).value
    ensures Replay(env, rs).value[taskId].taskId == taskId
    decreases |rs|
  {
    hide EventOf;
    if rs != [] && taskId in Replay(env, rs[..|rs| - 1]).value {
      HeldNamesTask(env, rs[..|rs| - 1], taskId);
    }
  }

  /** So a release that arrives after its task was granted anew changes nothing. */
  lemma DelayedReleaseIsHarmless(env: Env, rs: seq<Value>, call: Call, more: seq<Value>, i: int, j: int, c: Claim, d: Claim)
    requires DistinctIds(env, rs) && Appended(env, rs, call, more)
    requires 0 <= i < j && GrantAt(env, rs, i, c) && GrantAt(env, rs, j, d) && c.taskId == d.taskId
    requires call.ReleaseTask? && call.claimId == Str(c.claimId)
    ensures Replay(env, more) == Replay(env, rs)
  {
    hide EventOf, Expiry, Replay, ReleaseRefusal;
    if Drops(env, call, rs) {
      ReleaseNamesItsGrant(env, rs, call, i, c);
      assert false;
    }
  }

  // Compaction

  /** Ledgers that leave the same claims running from `horizon` on. */
  ghost predicate SameFrom(env: Env, a: seq<Value>, b: seq<Value>, horizon: int) {
    && Replay(env, a).Some? && Replay(env, b).Some?
    && Unexpired(Replay(env, a).value, horizon) == Unexpired(Replay(env, b).value, horizon)
  }

  lemma SameActive(env: Env, a: seq<Value>, b: seq<Value>, horizon: int, now: int)
    requires SameFrom(env, a, b, horizon) && horizon <= now
    ensures Active(env, a, now) == Active(env, b, now) && Active(env, a, now).Some?
  {
    hide Expiry, Replay;
    var x, y := Replay(env, a).value, Replay(env, b).value;
    var xh, yh := Unexpired(x, horizon), Unexpired(y, horizon);
    forall t
      ensures t in Unexpired(x, now) <==> t in Unexpired(y, now)
      ensures t in Unexpired(x, now) ==> Unexpired(x, now)[t] == Unexpired(y, now)[t]
    {
      assert t in xh <==> t in yh;
      assert t in xh ==> xh[t] == yh[t];
    }
    assert Unexpired(x, now) == Unexpired(y, now);
  }

  /** A decision reads the ledger only through the claims active at its clock reading. */
  lemma DecisionReadsActive(env: Env, call: Call, a: seq<Value>, b: seq<Value>)
    requires Active(env, a, call.now) == Active(env, b, call.now)
    ensures Decision(env, call, a) == Decision(env, call, b)
    ensures Effect(env, call, a) == Effect(env, call, b)
  {
    hide Active, ClaimRefusal, ReleaseRefusal, ClaimRecord, ReleaseRecord, NewClaim;
  }

  lemma SameStep(env: Env, a: seq<Record>, b: seq<Record>, horizon: int, call: Call)
    requires SameFrom(env, a, b, horizon) && horizon <= call.now
    ensures Decision(env, call, a) == Decision(env, call, b)
    ensures Decision(env, call, a).Decide? ==>
              SameFrom(env, a + [Decision(env, call, a).record], b + [Decision(env, call, b).record], horizon)
  {
    hide Decision, Expiry, EventOf, Effect, Replay;
    SameActive(env, a, b, horizon, call.now);
    DecisionReadsActive(env, call, a, b);
    if Decision(env, call, a).Decide? {
      DecidedIsAppended(env, a, call);
      DecidedIsAppended(env, b, call);
      var e := Effect(env, call, a);
      SameApply(Replay(env, a).value, Replay(env, b).value, horizon, e);
    }
  }

  lemma SameApply(x: Claims, y: Claims, horizon: int, e: Event)
    requires Unexpired(x, horizon) == Unexpired(y, horizon)
    requires Apply(x, e).Some? && Apply(y, e).Some?
    ensures Unexpired(Apply(x, e).value, horizon) == Unexpired(Apply(y, e).value, horizon)
  {
    hide Expiry;
    var xh, yh := Unexpired(x, horizon), Unexpired(y, horizon);
    var x', y' := Apply(x, e).value, Apply(y, e).value;
    forall t
      ensures t in Unexpired(x', horizon) <==> t in Unexpired(y', horizon)
      ensures t in Unexpired(x', horizon) ==> Unexpired(x', horizon)[t] == Unexpired(y', horizon)[t]
    {
      assert t in xh <==> t in yh;
      assert t in xh ==> xh[t] == yh[t];
    }
  }

  /** What each call of a run answers; None where the transaction raises. */
  function Replies(env: Env, records: seq<Record>, calls: seq<Call>): seq<Option<Reply>> {
    if calls == [] then []
    else
      var most, last := calls[..|calls| - 1], calls[|calls| - 1];
      Replies(env, records, most) + [
        match Decision(env, last, RunFrom(env, records, most))
        case Raise => None
        case Decide(_, reply) => Some(reply)]
  }

  /** Two ledgers with the same claims from `horizon` on answer and record all later calls alike. */
  lemma {:induction false} Bisimilar(env: Env, a: seq<Record>, b: seq<Record>, horizon: int, calls: seq<Call>)
    requires SameFrom(env, a, b, horizon)
    requires forall i :: 0 <= i < |calls| ==> horizon <= calls[i].now
    ensures Replies(env, a, calls) == Replies(env, b, calls)
    ensures SameFrom(env, RunFrom(env, a, calls), RunFrom(env, b, calls), horizon)
    ensures exists added: seq<Record> :: RunFrom(env, a, calls) == a + added && RunFrom(env, b, calls) == b + added
    decreases |calls|
  {
    hide Decision, SameFrom;
    if calls == [] {
      var none: seq<Record> := [];
      assert a == a + none && b == b + none;
    } else {
      var most, last := calls[..|calls| - 1], calls[|calls| - 1];
      Bisimilar(env, a, b, horizon, most);
      var added: seq<Record> :| RunFrom(env, a, most) == a + added && RunFrom(env, b, most) == b + added;
      SameStep(env, a + added, b + added, horizon, last);
      if Decision(env, last, a + added).Decide? {
        var r := Decision(env, last, a + added).record;
        assert RunFrom(env, a, calls) == a + (added + [r]);
        assert RunFrom(env, b, calls) == b + (added + [r]);
      }
    }
  }

  /** Every claim in force was granted, so it ends within the longest duration of its start. */
  lemma {:induction false} TermsAreBounded(env: Env, rs: seq<Value>, latest: int, taskId: string)
    requires Replay(env, rs).Some? && taskId in Replay(env, rs).value
    requires forall i, c :: GrantAt(env, rs, i, c) ==> Start(c) <= latest
    ensures Expiry(Replay(env, rs).value[taskId]) <= latest + MAX_CLAIM_MINUTES * MINUTE
  {
    hide EventOf, Expiry, Start, Replay;
    var c := Replay(env, rs).value[taskId];
    HeldNamesTask(env, rs, taskId);
    ReplayIsLastEvent(env, rs, c);
    var i :| InForce(env, rs, i, c);
    assert GrantAt(env, rs, i, c);
    GrantIsValid(env, rs[i], c);
  }

  lemma GrantIsValid(env: Env, r: Value, c: Claim)
    requires EventOf(env, r) == Grant(c)
    ensures Start(c) < Expiry(c) <= Start(c) + MAX_CLAIM_MINUTES * MINUTE
  {
    hide ParseTimestamp;
  }

  /**
   The drain-and-archive rule: once 1440 minutes have passed since the latest grant, a fresh empty
   ledger answers every later run of calls, and records it, exactly as the old ledger would.
  */
  lemma Compaction(env: Env, drained: seq<Record>, latest: int, calls: seq<Call>)
    requires Replay(env, drained).Some?
    requires forall i, c :: GrantAt(env, drained, i, c) ==> Start(c) <= latest
    requires forall i :: 0 <= i < |calls| ==> latest + MAX_CLAIM_MINUTES * MINUTE <= calls[i].now
    ensures Replies(env, drained, calls) == Replies(env, [], calls)
    ensures RunFrom(env, drained, calls) == drained + RunFrom(env, [], calls)
  {
    hide EventOf, Expiry, Start, Decision;
    var horizon := latest + MAX_CLAIM_MINUTES * MINUTE;
    var claims := Replay(env, drained).value;
    forall t | t in claims ensures Expiry(claims[t]) <= horizon {
      TermsAreBounded(env, drained, latest, t);
    }
    assert Unexpired(claims, horizon) == map[];
    var none: seq<Record> := [];
    assert SameFrom(env, drained, none, horizon);
    Bisimilar(env, drained, none, horizon, calls);
    var added: seq<Record> :| RunFrom(env, drained, calls) == drained + added && RunFrom(env, none, calls) == none + added;
    assert none + added == added;
  }

  // A clock that steps back between grants of one task

  /** A valid claim of a task whose claim is absent or over is granted. */
  lemma Granted(env: Env, rs: seq<Record>, call: Call)
    requires Replay(env, rs).Some? && call.ClaimTask? && ClaimRefusal(env, call).None?
    requires IsClaimId(Str(call.freshId)) && IsInstant(call.now + call.minutes.n * MINUTE)
    requires var claims := Replay(env, rs).value;
             call.taskId.s !in claims || Expiry(claims[call.taskId.s]) <= call.now
    ensures var d, c := Decision(env, call, rs), NewClaim(call);
            && d.Decide? && EventOf(env, d.record) == Grant(c)
            && Replay(env, rs + [d.record]) == Some(Replay(env, rs).value[call.taskId.s := c])
    ensures var c := NewClaim(call);
            && c.taskId == call.taskId.s && c.claimId == call.freshId && c.owner == call.caller.s
            && Start(c) == Floor(call.now) && Expiry(c) == Floor(call.now) + call.minutes.n * MINUTE
  {
    hide EventOf, Expiry, Start, Replay, ClaimRefusal, Floor, IsClaimId, Decision;
    assert Grants(env, call, rs);
    GrantDecides(env, rs, call);
    GrantedTerm(env, call, rs);
    DecidedIsAppended(env, rs, call);
  }

  lemma Dropped(env: Env, rs: seq<Record>, call: Call, c: Claim)
    requires Replay(env, rs).Some? && Holds(Replay(env, rs).value, c)
    requires Releases(call, c) && ReleaseRefusal(env, call).None? && call.now < Expiry(c)
    ensures var d := Decision(env, call, rs);
            && d.Decide? && EventOf(env, d.record) == Drop(c.taskId, c.claimId, c.owner)
            && Replay(env, rs + [d.record]) == Some(Replay(env, rs).value - {c.taskId})
  {
    hide EventOf, Expiry, Replay, ReleaseRecord, ReleaseRefusal;
    DecidedIsAppended(env, rs, call);
  }

  /**
   A clock that steps back breaks exclusion: a day-long claim is taken over and released after it
   expired, then a call that reads one minute past the start is granted while the first still runs.
  */
  lemma ClockStepBreaksExclusion(env: Env, task: string, key: string, owner: string, ids: seq<string>)
    requires IsTaskId(Str(task)) && task in env.tasks && env.tasks[task] == Status.Open
    requires IsKey(Str(key)) && IsIdentity(env, Str(owner))
    requires |ids| == 3 && ids[0] != ids[1] && forall i :: 0 <= i < 3 ==> IsClaimId(Str(ids[i]))
    ensures var day := 1440 * MINUTE;
            var claim := (minutes: int, now: Instant, id: string) =>
              ClaimTask(Str(task), Int(minutes), Str(key), Str(owner), now, id);
            !Exclusive(env, Run(env, [claim(1440, 0, ids[0]), claim(15, day, ids[1]),
              ReleaseTask(Str(task), Str(ids[1]), Str(owner), day), claim(15, MINUTE, ids[2])]))
  {
    hide EventOf, Exclusive, NewClaim, Expiry, Start, Decision, Effect, ClaimRefusal, ReleaseRefusal,
         IsTaskId, IsKey, IsIdentity, IsClaimId, Replay;
    var day := 1440 * MINUTE;
    var c1 := ClaimTask(Str(task), Int(1440), Str(key), Str(owner), 0, ids[0]);
    var c2 := ClaimTask(Str(task), Int(15), Str(key), Str(owner), day, ids[1]);
    var c3 := ReleaseTask(Str(task), Str(ids[1]), Str(owner), day);
    var c4 := ClaimTask(Str(task), Int(15), Str(key), Str(owner), MINUTE, ids[2]);
    var none: seq<Record> := [];
    assert Replay(env, none) == Some(map[]) by { EmptyReplay(env); }
    Granted(env, none, c1);
    var r1 := none + [Decision(env, c1, none).record];
    Granted(env, r1, c2);
    var r2 := r1 + [Decision(env, c2, r1).record];
    Dropped(env, r2, c3, NewClaim(c2));
    var r3 := r2 + [Decision(env, c3, r2).record];
    Granted(env, r3, c4);
    var r4 := r3 + [Decision(env, c4, r3).record];
    FourCalls(env, c1, c2, c3, c4);
    assert r4[0] == r1[0] && r4[1] == r2[1] && r4[2] == r3[2];
    Overlap(env, r4, NewClaim(c1), NewClaim(c2), NewClaim(c4));
  }

  lemma FourCalls(env: Env, a: Call, b: Call, c: Call, d: Call)
    requires var none: seq<Record> := [];
             && Decision(env, a, none).Decide? && var r1 := none + [Decision(env, a, none).record];
                Decision(env, b, r1).Decide? && var r2 := r1 + [Decision(env, b, r1).record];
                Decision(env, c, r2).Decide? && var r3 := r2 + [Decision(env, c, r2).record];
                Decision(env, d, r3).Decide?
    ensures var none: seq<Record> := [];
            var r1 := none + [Decision(env, a, none).record];
            var r2 := r1 + [Decision(env, b, r1).record];
            var r3 := r2 + [Decision(env, c, r2).record];
            Run(env, [a, b, c, d]) == r3 + [Decision(env, d, r3).record]
  {
    hide Decision, RunFrom;
    assert Run(env, []) == [] by { NothingRun(env); }
    assert [] + [a] == [a] && [a] + [b] == [a, b] && [a, b] + [c] == [a, b, c] && [a, b, c] + [d] == [a, b, c, d];
    OneMoreCall(env, [], a);
    OneMoreCall(env, [a], b);
    OneMoreCall(env, [a, b], c);
    OneMoreCall(env, [a, b, c], d);
  }

  lemma NothingRun(env: Env)
    ensures Run(env, []) == []
  {
  }

  lemma OneMoreCall(env: Env, calls: seq<Call>, call: Call)
    requires Decision(env, call, Run(env, calls)).Decide?
    ensures Run(env, calls + [call]) == Run(env, calls) + [Decision(env, call, Run(env, calls)).record]
  {
    hide Decision;
    assert (calls + [call])[..|calls|] == calls;
  }

  lemma Overlap(env: Env, rs: seq<Value>, c: Claim, d: Claim, f: Claim)
    requires |rs| == 4 && c.taskId == f.taskId && c.claimId != d.claimId && Start(f) < Expiry(c)
    requires EventOf(env, rs[0]) == Grant(c) && EventOf(env, rs[1]) == Grant(d) && EventOf(env, rs[3]) == Grant(f)
    requires EventOf(env, rs[2]) == Drop(d.taskId, d.claimId, d.owner)
    ensures !Exclusive(env, rs)
  {
    hide EventOf, Start, Expiry;
    assert GrantAt(env, rs, 0, c) && GrantAt(env, rs, 3, f);
    assert !DroppedWithin(env, rs, 0, 3, c);
  }

  lemma EmptyReplay(env: Env)
    ensures Replay(env, []) == Some(map[])
  {
  }
}
