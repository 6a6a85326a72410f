/** The main guarantees of the claim protocol, each about every run. */
module TaskClaimSafety {
  import opened Basics
  import opened Json
  import opened Timestamps
  import opened Audit
  import opened TaskClaims
  import opened TaskClaimRuns

  // Grants and releases by their position in the ledger

  ghost predicate GrantAt(env: Env, rs: seq<Value>, i: int, c: Claim) {
    0 <= i < |rs| && EventOf(env, rs[i]) == Grant(c)
  }

  ghost predicate DropAt(env: Env, rs: seq<Value>, k: int, c: Claim) {
    0 <= k < |rs| && EventOf(env, rs[k]) == Drop(c.taskId, c.claimId, c.owner)
  }

  /** The claim is released strictly between two positions. */
  ghost predicate DroppedWithin(env: Env, rs: seq<Value>, i: int, j: int, c: Claim) {
    exists k :: i < k < j && DropAt(env, rs, k, c)
  }

  ghost predicate NoLaterGrant(env: Env, rs: seq<Value>, i: int, j: int, taskId: string) {
    forall k, d :: i < k < j && GrantAt(env, rs, k, d) ==> d.taskId != taskId
  }

  /** `c`, granted at `i`, is the latest grant of its task, and no release of it follows. */
  ghost predicate InForce(env: Env, rs: seq<Value>, i: int, c: Claim) {
    GrantAt(env, rs, i, c) && NoLaterGrant(env, rs, i, |rs|, c.taskId) && !DroppedWithin(env, rs, i, |rs|, c)
  }

  predicate Holds(claims: Claims, c: Claim) {
    c.taskId in claims && claims[c.taskId] == c
  }

  lemma PrefixEvents(env: Env, rs: seq<Value>, n: nat, i: int, j: int, c: Claim)
    requires n <= |rs| && j <= n
    ensures i < n ==> (GrantAt(env, rs, i, c) <==> GrantAt(env, rs[..n], i, c))
    ensures DroppedWithin(env, rs, i, j, c) <==> DroppedWithin(env, rs[..n], i, j, c)
    ensures NoLaterGrant(env, rs, i, j, c.taskId) <==> NoLaterGrant(env, rs[..n], i, j, c.taskId)
  {
    hide EventOf;
    var p := rs[..n];
    assert forall k :: 0 <= k < n ==> p[k] == rs[k];
    assert forall k :: k < n ==> (DropAt(env, rs, k, c) <==> DropAt(env, p, k, c));
    assert forall k, d :: k < n ==> (GrantAt(env, rs, k, d) <==> GrantAt(env, p, k, d));
  }

  /** One more record keeps a claim in force unless it grants the task again or releases the claim. */
  lemma InForceStep(env: Env, rs: seq<Value>, i: int, c: Claim)
    requires rs != [] && 0 <= i < |rs| - 1
    ensures var e := EventOf(env, rs[|rs| - 1]);
            InForce(env, rs, i, c) <==>
              && InForce(env, rs[..|rs| - 1], i, c)
              && !(e.Grant? && e.claim.taskId == c.taskId)
              && e != Drop(c.taskId, c.claimId, c.owner)
  {
    hide EventOf;
    var n := |rs| - 1;
    PrefixEvents(env, rs, n, i, n, c);
    var e := EventOf(env, rs[n]);
    if e.Grant? { assert GrantAt(env, rs, n, e.claim); }
    if e == Drop(c.taskId, c.claimId, c.owner) { assert DropAt(env, rs, n, c); }
  }

  /** The dict fold agrees with the last-event reading of the ledger, claim by claim. */
  lemma {:induction false} ReplayIsLastEvent(env: Env, rs: seq<Value>, c: Claim)
    requires Replay(env, rs).Some?
    ensures Holds(Replay(env, rs).value, c) <==> exists i :: InForce(env, rs, i, c)
    decreases |rs|
  {
    hide EventOf, InForce;
    if rs == [] {
      assert !exists i :: InForce(env, rs, i, c) by {
        forall i ensures !InForce(env, rs, i, c) { NothingInForce(env, i, c); }
      }
    } else {
      var n := |rs| - 1;
      var most := rs[..n];
      ReplayIsLastEvent(env, most, c);
      var e := EventOf(env, rs[n]);
      forall i | 0 <= i < n
        ensures InForce(env, rs, i, c) <==>
                  InForce(env, most, i, c) && !(e.Grant? && e.claim.taskId == c.taskId) &&
                  e != Drop(c.taskId, c.claimId, c.owner)
      {
        InForceStep(env, rs, i, c);
      }
      InForceRange(env, rs, c);
      InForceRange(env, most, c);
      LastInForce(env, rs, c);
    }
  }

  lemma NothingInForce(env: Env, i: int, c: Claim)
    ensures !InForce(env, [], i, c)
  {
  }

  lemma InForceRange(env: Env, rs: seq<Value>, c: Claim)
    ensures forall i :: InForce(env, rs, i, c) ==> 0 <= i < |rs|
  {
  }

  lemma LastInForce(env: Env, rs: seq<Value>, c: Claim)
    requires rs != []
    ensures InForce(env, rs, |rs| - 1, c) <==> EventOf(env, rs[|rs| - 1]) == Grant(c)
  {
    hide EventOf;
  }

  // Mutual exclusion

  /** Of two grants of one task, the earlier is released between them or over when the later starts. */
  ghost predicate Exclusive(env: Env, rs: seq<Value>) {
    forall i, j, c, d :: 0 <= i < j && GrantAt(env, rs, i, c) && GrantAt(env, rs, j, d) && c.taskId == d.taskId ==>
      DroppedWithin(env, rs, i, j, c) || Expiry(c) <= Start(d)
  }

  /** The same for grants with no other grant of the task between them. */
  ghost predicate ConsecutivelyExclusive(env: Env, rs: seq<Value>) {
    forall i, j, c, d ::
      && 0 <= i < j && GrantAt(env, rs, i, c) && GrantAt(env, rs, j, d) && c.taskId == d.taskId
      && NoLaterGrant(env, rs, i, j, c.taskId) ==>
      DroppedWithin(env, rs, i, j, c) || Expiry(c) <= Start(d)
  }

  /** `more` is the ledger after a decided call. */
  ghost predicate Appended(env: Env, rs: seq<Value>, call: Call, more: seq<Value>) {
    && |more| == |rs| + 1 && more[..|rs|] == rs
    && Replay(env, rs).Some? && Replay(env, more).Some?
    && EventOf(env, more[|rs|]) == Effect(env, call, rs)
    && Replay(env, more) == Apply(Replay(env, rs).value, Effect(env, call, rs))
  }

  lemma DecidedIsAppended(env: Env, rs: seq<Record>, call: Call)
    requires Replay(env, rs).Some? && Decision(env, call, rs).Decide?
    ensures Appended(env, rs, call, rs + [Decision(env, call, rs).record])
  {
    hide EventOf, Decision, Effect;
    DecisionEvent(env, call, rs);
    ReplayStep(env, rs, call);
  }

  lemma WholeSecondFloor(t: int, now: int)
    requires t % SECOND == 0 && t <= now
    ensures t <= Floor(now)
  {
  }

  lemma ExpiryIsWhole(c: Claim)
    ensures Expiry(c) % SECOND == 0
  {
    hide ParseTimestamp;
  }

  /** A grant starts at the floored reading, when whatever the replay holds for its task is over. */
  lemma GrantFacts(env: Env, rs: seq<Value>, call: Call, d: Claim)
    requires Effect(env, call, rs) == Grant(d)
    ensures Start(d) == Floor(call.now) && Replay(env, rs).Some?
    ensures forall c :: Holds(Replay(env, rs).value, c) && c.taskId == d.taskId ==> Expiry(c) <= Floor(call.now)
  {
    hide Start, Expiry, Floor;
    assert Grants(env, call, rs) && d == NewClaim(call);
    GrantedTerm(env, call, rs);
    forall c | Holds(Replay(env, rs).value, c) && c.taskId == d.taskId
      ensures Expiry(c) <= Floor(call.now)
    {
      assert c.taskId !in Unexpired(Replay(env, rs).value, call.now);
      ExpiryIsWhole(c);
      WholeSecondFloor(Expiry(c), call.now);
    }
  }

  /** What a decided release removes is the unexpired claim that the replay holds for the task. */
  lemma DropFacts(env: Env, rs: seq<Value>, call: Call, taskId: string, claimId: string, owner: string)
    requires Effect(env, call, rs) == Drop(taskId, claimId, owner)
    ensures Replay(env, rs).Some? && taskId in Replay(env, rs).value
    ensures var held := Replay(env, rs).value[taskId];
            held.owner == owner && held.claimId == claimId && Expiry(held) > call.now
  {
    hide Expiry;
    assert Drops(env, call, rs);
  }

  /** Without any assumption on the clocks, consecutive grants of one task never overlap. */
  lemma {:induction false} ConsecutiveExclusion(env: Env, calls: seq<Call>)
    ensures Replay(env, Run(env, calls)).Some? && ConsecutivelyExclusive(env, Run(env, calls))
    decreases |calls|
  {
    hide Decision, Appended, ConsecutivelyExclusive;
    if calls == [] {
      EmptyExclusive(env);
    } else {
      var most, last := calls[..|calls| - 1], calls[|calls| - 1];
      ConsecutiveExclusion(env, most);
      var rs := Run(env, most);
      if Decision(env, last, rs).Decide? {
        DecidedIsAppended(env, rs, last);
        ConsecutiveStep(env, rs, last, Run(env, calls));
      }
    }
  }

  lemma EmptyExclusive(env: Env)
    ensures ConsecutivelyExclusive(env, [])
  {
  }

  lemma ConsecutiveStep(env: Env, rs: seq<Value>, call: Call, more: seq<Value>)
    requires ConsecutivelyExclusive(env, rs) && Appended(env, rs, call, more)
    ensures Replay(env, more).Some? && ConsecutivelyExclusive(env, more)
  {
    hide EventOf, Effect, Expiry, Start, Replay;
    var n := |rs|;
    forall i, j, c, d | && 0 <= i < j && GrantAt(env, more, i, c) && GrantAt(env, more, j, d)
                        && c.taskId == d.taskId && NoLaterGrant(env, more, i, j, c.taskId)
      ensures DroppedWithin(env, more, i, j, c) || Expiry(c) <= Start(d)
    {
      PrefixEvents(env, more, n, i, j, c);
      if j < n {
        PrefixEvents(env, more, n, j, j, d);
      } else if !DroppedWithin(env, more, i, j, c) {
        assert InForce(env, rs, i, c);
        ReplayIsLastEvent(env, rs, c);
        GrantFacts(env, rs, call, d);
      }
    }
  }
}
