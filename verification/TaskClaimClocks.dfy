/** When grants of one task exclude each other, in terms of the clocks that the granted calls read. */
module TaskClaimClocks {
  import opened Basics
  import opened Json
  import opened Timestamps
  import opened Audit
  import opened TaskClaims
  import opened TaskClaimRuns
  import opened TaskClaimSafety

  // What earlier grants a new one has to wait for

  function Without(claims: seq<Claim>, claimId: string, owner: string): seq<Claim> {
    if claims == [] then []
    else
      Without(claims[..|claims| - 1], claimId, owner) +
      var c := claims[|claims| - 1];
      if c.claimId == claimId && c.owner == owner then [] else [c]
  }

  /** The grants of a task that no release has followed; unlike the replay, a later grant does not hide them. */
  function Unreleased(env: Env, rs: seq<Value>, taskId: string): seq<Claim> {
    if rs == [] then []
    else
      var before := Unreleased(env, rs[..|rs| - 1], taskId);
      match EventOf(env, rs[|rs| - 1])
      case Grant(c) => if c.taskId == taskId then before + [c] else before
      case Drop(t, claimId, owner) => if t == taskId then Without(before, claimId, owner) else before
      case _ => before
  }

  /** The latest end of some claims. */
  function LastEnd(claims: seq<Claim>): int {
    if claims == [] then 0
    else
      var before, last := LastEnd(claims[..|claims| - 1]), Expiry(claims[|claims| - 1]);
      if before < last then last else before
  }

  /** The instant from which a grant of the task overlaps no unreleased earlier one. */
  function HighWater(env: Env, rs: seq<Value>, taskId: string): int { LastEnd(Unreleased(env, rs, taskId)) }

  lemma {:induction false} WithoutKeeps(claims: seq<Claim>, claimId: string, owner: string)
    ensures forall c :: c in Without(claims, claimId, owner) <==> c in claims && !(c.claimId == claimId && c.owner == owner)
  {
    if claims != [] {
      WithoutKeeps(claims[..|claims| - 1], claimId, owner);
      assert claims == claims[..|claims| - 1] + [claims[|claims| - 1]];
    }
  }

  ghost predicate UnreleasedAt(env: Env, rs: seq<Value>, taskId: string, i: int, c: Claim) {
    GrantAt(env, rs, i, c) && c.taskId == taskId && !DroppedWithin(env, rs, i, |rs|, c)
  }

  lemma UnreleasedStep(env: Env, rs: seq<Value>, taskId: string, i: int, c: Claim)
    requires rs != []
    ensures var n, e := |rs| - 1, EventOf(env, rs[|rs| - 1]);
            UnreleasedAt(env, rs, taskId, i, c) <==>
              || (i == n && e == Grant(c) && c.taskId == taskId)
              || (i < n && UnreleasedAt(env, rs[..n], taskId, i, c) && e != Drop(c.taskId, c.claimId, c.owner))
  {
    hide EventOf;
    var n := |rs| - 1;
    PrefixEvents(env, rs, n, i, n, c);
    if EventOf(env, rs[n]) == Drop(c.taskId, c.claimId, c.owner) { assert DropAt(env, rs, n, c); }
  }

  /** The fold lists exactly the grants that no later release matches. */
  lemma {:induction false} UnreleasedAre(env: Env, rs: seq<Value>, taskId: string, c: Claim)
    ensures c in Unreleased(env, rs, taskId) <==> exists i :: UnreleasedAt(env, rs, taskId, i, c)
    decreases |rs|
  {
    hide EventOf, UnreleasedAt, Without;
    if rs == [] {
      forall i ensures !UnreleasedAt(env, rs, taskId, i, c) { NothingUnreleased(env, taskId, i, c); }
    } else {
      var n, most, e := |rs| - 1, rs[..|rs| - 1], EventOf(env, rs[|rs| - 1]);
      UnreleasedAre(env, most, taskId, c);
      if e.Drop? { WithoutKeeps(Unreleased(env, most, taskId), e.claimId, e.owner); }
      forall i
        ensures UnreleasedAt(env, rs, taskId, i, c) <==>
                  || (i == n && e == Grant(c) && c.taskId == taskId)
                  || (i < n && UnreleasedAt(env, most, taskId, i, c) && e != Drop(c.taskId, c.claimId, c.owner))
        ensures UnreleasedAt(env, most, taskId, i, c) ==> i < n && c.taskId == taskId
      {
        UnreleasedStep(env, rs, taskId, i, c);
        UnreleasedRange(env, most, taskId, i, c);
      }
      if c in Unreleased(env, rs, taskId) {
        if e == Grant(c) && c.taskId == taskId {
          assert UnreleasedAt(env, rs, taskId, n, c);
        } else {
          var i :| UnreleasedAt(env, most, taskId, i, c);
          assert UnreleasedAt(env, rs, taskId, i, c);
        }
      }
      if i :| UnreleasedAt(env, rs, taskId, i, c) {
        assert i < n ==> UnreleasedAt(env, most, taskId, i, c);
      }
    }
  }

  lemma NothingUnreleased(env: Env, taskId: string, i: int, c: Claim)
    ensures !UnreleasedAt(env, [], taskId, i, c)
  {
  }

  lemma UnreleasedRange(env: Env, rs: seq<Value>, taskId: string, i: int, c: Claim)
    ensures UnreleasedAt(env, rs, taskId, i, c) ==> 0 <= i < |rs| && c.taskId == taskId
  {
  }

  lemma {:induction false} LastEndBounds(claims: seq<Claim>, t: int)
    requires 0 <= t
    ensures LastEnd(claims) <= t <==> forall c :: c in claims ==> Expiry(c) <= t
  {
    hide Expiry;
    if claims != [] {
      LastEndBounds(claims[..|claims| - 1], t);
      assert claims == claims[..|claims| - 1] + [claims[|claims| - 1]];
    }
  }

  // Exclusion on a ledger

  /** A grant `d` that follows `rs` overlaps no unreleased earlier grant of its task. */
  ghost predicate Clear(env: Env, rs: seq<Value>, d: Claim) {
    forall i, c :: UnreleasedAt(env, rs, d.taskId, i, c) ==> Expiry(c) <= Start(d)
  }

  lemma ClearAboveHighWater(env: Env, rs: seq<Value>, d: Claim)
    ensures Clear(env, rs, d) <==> HighWater(env, rs, d.taskId) <= Start(d)
  {
    hide Expiry, UnreleasedAt, Unreleased, LastEnd;
    StartIsInstant(d);
    LastEndBounds(Unreleased(env, rs, d.taskId), Start(d));
    forall c ensures c in Unreleased(env, rs, d.taskId) <==> exists i :: UnreleasedAt(env, rs, d.taskId, i, c) {
      UnreleasedAre(env, rs, d.taskId, c);
    }
  }

  lemma StartIsInstant(c: Claim)
    ensures 0 <= Start(c)
  {
    hide ParseTimestamp;
  }

  /** One more record keeps exclusion exactly when it is no grant, or one above the high-water mark. */
  lemma ExclusiveStep(env: Env, rs: seq<Value>, more: seq<Value>)
    requires |more| == |rs| + 1 && more[..|rs|] == rs
    ensures var e := EventOf(env, more[|rs|]);
            Exclusive(env, more) <==> Exclusive(env, rs) && (e.Grant? ==> HighWater(env, rs, e.claim.taskId) <= Start(e.claim))
  {
    hide EventOf, Expiry, Start, HighWater, Exclusive, Clear;
    var e := EventOf(env, more[|rs|]);
    if e.Grant? {
      ClearAboveHighWater(env, rs, e.claim);
      ExclusiveGrows(env, rs, more, e.claim);
    } else {
      ExclusiveSame(env, rs, more);
    }
  }

  lemma ExclusiveSame(env: Env, rs: seq<Value>, more: seq<Value>)
    requires |more| == |rs| + 1 && more[..|rs|] == rs && !EventOf(env, more[|rs|]).Grant?
    ensures Exclusive(env, more) <==> Exclusive(env, rs)
  {
    hide EventOf, Expiry, Start;
    forall i, j, c | j <= |rs|
      ensures i < |rs| ==> (GrantAt(env, more, i, c) <==> GrantAt(env, rs, i, c))
      ensures DroppedWithin(env, more, i, j, c) <==> DroppedWithin(env, rs, i, j, c)
    {
      if 0 <= j { PrefixEvents(env, more, |rs|, i, j, c); } else { PrefixEvents(env, more, |rs|, i, 0, c); }
    }
    forall i, c | GrantAt(env, more, i, c) ensures i < |rs| {
    }
  }

  lemma ExclusiveGrows(env: Env, rs: seq<Value>, more: seq<Value>, d: Claim)
    requires |more| == |rs| + 1 && more[..|rs|] == rs && EventOf(env, more[|rs|]) == Grant(d)
    ensures Exclusive(env, more) <==> Exclusive(env, rs) && Clear(env, rs, d)
  {
    hide EventOf, Expiry, Start;
    var n := |rs|;
    forall i, j, c | j <= n
      ensures i < n ==> (GrantAt(env, more, i, c) <==> GrantAt(env, rs, i, c))
      ensures DroppedWithin(env, more, i, j, c) <==> DroppedWithin(env, rs, i, j, c)
    {
      if 0 <= j { PrefixEvents(env, more, n, i, j, c); } else { PrefixEvents(env, more, n, i, 0, c); }
    }
    assert GrantAt(env, more, n, d);
    if Exclusive(env, more) {
      forall i, j, c, f | 0 <= i < j && GrantAt(env, rs, i, c) && GrantAt(env, rs, j, f) && c.taskId == f.taskId
        ensures DroppedWithin(env, rs, i, j, c) || Expiry(c) <= Start(f)
      {
        assert GrantAt(env, more, i, c) && GrantAt(env, more, j, f);
      }
      forall i, c | UnreleasedAt(env, rs, d.taskId, i, c) ensures Expiry(c) <= Start(d) {
        assert GrantAt(env, more, i, c);
      }
    }
    if Exclusive(env, rs) && Clear(env, rs, d) {
      forall i, j, c, f | 0 <= i < j && GrantAt(env, more, i, c) && GrantAt(env, more, j, f) && c.taskId == f.taskId
        ensures DroppedWithin(env, more, i, j, c) || Expiry(c) <= Start(f)
      {
        if j == n && !DroppedWithin(env, rs, i, n, c) { assert UnreleasedAt(env, rs, d.taskId, i, c); }
      }
    }
  }

  // Exclusion in a run

  /** Call `k` of a run is granted. */
  ghost predicate GrantedAt(env: Env, calls: seq<Call>, k: nat) {
    k < |calls| && Grants(env, calls[k], Run(env, calls[..k]))
  }

  /** The second its clock reads is at or past the ledger's high-water mark for its task. */
  ghost predicate OnTime(env: Env, calls: seq<Call>, k: nat)
    requires GrantedAt(env, calls, k)
  {
    HighWater(env, Run(env, calls[..k]), calls[k].taskId.s) <= Floor(calls[k].now)
  }

  ghost predicate AllOnTime(env: Env, calls: seq<Call>) {
    forall k: nat :: GrantedAt(env, calls, k) ==> OnTime(env, calls, k)
  }

  /** The ledger after one more call: unchanged, or with one record that means what the call does. */
  lemma RunStep(env: Env, calls: seq<Call>)
    requires calls != []
    ensures var last, rs, more := calls[|calls| - 1], Run(env, calls[..|calls| - 1]), Run(env, calls);
            && Replay(env, rs).Some?
            && (more == rs || (|more| == |rs| + 1 && more[..|rs|] == rs && EventOf(env, more[|rs|]) == Effect(env, last, rs)))
            && (Grants(env, last, rs) ==> more != rs)
  {
    hide EventOf, Effect, Decision, Replay, Grants;
    var none: seq<Record> := [];
    var last, most := calls[|calls| - 1], calls[..|calls| - 1];
    EmptyLedgerReplays(env);
    NeverPoisoned(env, none, most);
    var rs := Run(env, most);
    if Grants(env, last, rs) { GrantDecides(env, rs, last); }
    if Decision(env, last, rs).Decide? { DecidedIsAppended(env, rs, last); }
  }

  lemma EmptyLedgerReplays(env: Env)
    ensures Replay(env, []).Some?
  {
  }

  lemma GrantedEffect(env: Env, call: Call, rs: seq<Value>)
    ensures Effect(env, call, rs).Grant? <==> Grants(env, call, rs)
    ensures Grants(env, call, rs) ==>
              var d := Effect(env, call, rs).claim; d.taskId == call.taskId.s && Start(d) == Floor(call.now)
  {
    hide Start, Floor, Expiry, ClaimRefusal, Active;
    if Grants(env, call, rs) { GrantFacts(env, rs, call, Effect(env, call, rs).claim); }
  }

  /**
   Exactly when grants of one task exclude each other in a run: every granted call's clock read no
   second before the high-water mark of its task, which the ledger shows before the call.
  */
  lemma {:induction false} ExclusiveExactly(env: Env, calls: seq<Call>)
    ensures Exclusive(env, Run(env, calls)) <==> AllOnTime(env, calls)
    decreases |calls|
  {
    hide EventOf, Effect, Grants, Exclusive, HighWater, Floor, Start, Run;
    if calls == [] {
      NothingExcluded(env);
    } else {
      var n, most := |calls| - 1, calls[..|calls| - 1];
      ExclusiveExactly(env, most);
      RunStep(env, calls);
      var rs, more := Run(env, most), Run(env, calls);
      GrantedEffect(env, calls[n], rs);
      if more != rs { ExclusiveStep(env, rs, more); }
      assert GrantedAt(env, calls, n) <==> Grants(env, calls[n], rs);
      AllOnTimeStep(env, calls);
    }
  }

  lemma AllOnTimeStep(env: Env, calls: seq<Call>)
    requires calls != []
    ensures var n, most := |calls| - 1, calls[..|calls| - 1];
            AllOnTime(env, calls) <==> AllOnTime(env, most) && (GrantedAt(env, calls, n) ==> OnTime(env, calls, n))
  {
    hide Grants, HighWater, Floor, Run;
    var n, most := |calls| - 1, calls[..|calls| - 1];
    forall k: nat | k < n
      ensures GrantedAt(env, calls, k) <==> GrantedAt(env, most, k)
      ensures GrantedAt(env, calls, k) ==> (OnTime(env, calls, k) <==> OnTime(env, most, k))
    {
      assert calls[..k] == most[..k];
    }
    if AllOnTime(env, calls) {
      forall k: nat | GrantedAt(env, most, k) ensures OnTime(env, most, k) {
        assert GrantedAt(env, calls, k);
      }
    }
    if AllOnTime(env, most) && (GrantedAt(env, calls, n) ==> OnTime(env, calls, n)) {
      forall k: nat | GrantedAt(env, calls, k) ensures OnTime(env, calls, k) {
        if k < n { assert GrantedAt(env, most, k); }
      }
    }
  }

  lemma NothingExcluded(env: Env)
    ensures Exclusive(env, Run(env, [])) && AllOnTime(env, [])
  {
  }

  // Clocks that do not step back between grants of a task

  /** Of two grants of one task the later one's clock reads no earlier second; nothing is asked of other calls. */
  ghost predicate MonotoneGrants(env: Env, calls: seq<Call>) {
    forall j: nat, k: nat :: j < k && GrantedAt(env, calls, j) && GrantedAt(env, calls, k) && calls[j].taskId.s == calls[k].taskId.s ==>
      Floor(calls[j].now) <= Floor(calls[k].now)
  }

  ghost predicate MonotoneStarts(env: Env, rs: seq<Value>) {
    forall i, j, c, d :: 0 <= i < j && GrantAt(env, rs, i, c) && GrantAt(env, rs, j, d) && c.taskId == d.taskId ==>
      Start(c) <= Start(d)
  }

  /** Consecutive exclusion chains up when the starts of a task's grants do not decrease. */
  lemma {:induction false} Chained(env: Env, rs: seq<Value>, i: int, j: int, c: Claim, d: Claim)
    requires ConsecutivelyExclusive(env, rs) && MonotoneStarts(env, rs)
    requires 0 <= i < j && GrantAt(env, rs, i, c) && GrantAt(env, rs, j, d) && c.taskId == d.taskId
    ensures DroppedWithin(env, rs, i, j, c) || Expiry(c) <= Start(d)
    decreases j - i
  {
    hide EventOf, Start, Expiry;
    if !NoLaterGrant(env, rs, i, j, c.taskId) {
      var k, e :| i < k < j && GrantAt(env, rs, k, e) && e.taskId == c.taskId;
      Chained(env, rs, i, k, c, e);
    }
  }

  /** Where a grant in the ledger comes from. */
  lemma {:induction false} GrantedBy(env: Env, calls: seq<Call>, i: int, c: Claim) returns (k: nat)
    requires GrantAt(env, Run(env, calls), i, c)
    ensures GrantedAt(env, calls, k) && calls[k].taskId.s == c.taskId && Start(c) == Floor(calls[k].now)
    decreases |calls|
  {
    hide EventOf, Effect, Grants, Start, Floor, Run;
    NothingRan(env);
    var n, most := |calls| - 1, calls[..|calls| - 1];
    RunStep(env, calls);
    var rs, more := Run(env, most), Run(env, calls);
    GrantedEffect(env, calls[n], rs);
    if more != rs && i == |rs| {
      k := n;
    } else {
      PrefixEvents(env, more, |rs|, i, 0, c);
      assert more[..|rs|] == rs;
      k := GrantedBy(env, most, i, c);
      assert calls[..k] == most[..k];
    }
  }

  lemma NothingRan(env: Env)
    ensures Run(env, []) == []
  {
  }

  lemma {:induction false} StartsInOrder(env: Env, calls: seq<Call>)
    requires MonotoneGrants(env, calls)
    ensures MonotoneStarts(env, Run(env, calls))
    decreases |calls|
  {
    hide EventOf, Effect, Grants, Start, Floor, Run;
    if calls == [] {
      NothingRan(env);
    } else {
      var n, most := |calls| - 1, calls[..|calls| - 1];
      assert forall k :: 0 <= k < n ==> calls[..k] == most[..k];
      FewerGrants(env, calls);
      StartsInOrder(env, most);
      RunStep(env, calls);
      var rs, more := Run(env, most), Run(env, calls);
      GrantedEffect(env, calls[n], rs);
      if more != rs {
        forall i, j, c, d | 0 <= i < j && GrantAt(env, more, i, c) && GrantAt(env, more, j, d) && c.taskId == d.taskId
          ensures Start(c) <= Start(d)
        {
          PrefixEvents(env, more, |rs|, i, 0, c);
          PrefixEvents(env, more, |rs|, j, 0, d);
          if j == |rs| {
            var k := GrantedBy(env, most, i, c);
            assert GrantedAt(env, calls, k) && GrantedAt(env, calls, n);
          }
        }
      }
    }
  }

  lemma FewerGrants(env: Env, calls: seq<Call>)
    requires calls != [] && MonotoneGrants(env, calls)
    ensures MonotoneGrants(env, calls[..|calls| - 1])
  {
    hide ClaimRefusal, Active, Floor, Run;
    var most := calls[..|calls| - 1];
    forall j: nat, k: nat | j < k && GrantedAt(env, most, j) && GrantedAt(env, most, k) && most[j].taskId.s == most[k].taskId.s
      ensures Floor(most[j].now) <= Floor(most[k].now)
    {
      assert most[..j] == calls[..j] && most[..k] == calls[..k];
      assert GrantedAt(env, calls, j) && GrantedAt(env, calls, k);
    }
  }

  /**
   Mutual exclusion over whole runs: it takes no more than that the clocks of granted calls of one
   task do not step back from one to the next.
  */
  lemma MutualExclusion(env: Env, calls: seq<Call>)
    requires MonotoneGrants(env, calls)
    ensures Exclusive(env, Run(env, calls))
  {
    hide EventOf, Start, Expiry, MonotoneGrants, MonotoneStarts, ConsecutivelyExclusive;
    ConsecutiveExclusion(env, calls);
    StartsInOrder(env, calls);
    var rs := Run(env, calls);
    forall i, j, c, d | 0 <= i < j && GrantAt(env, rs, i, c) && GrantAt(env, rs, j, d) && c.taskId == d.taskId
      ensures DroppedWithin(env, rs, i, j, c) || Expiry(c) <= Start(d)
    {
      Chained(env, rs, i, j, c, d);
    }
  }

  /** In particular clocks that never step back will do. */
  lemma MonotoneIsEnough(env: Env, calls: seq<Call>)
    requires Monotone(calls)
    ensures MonotoneGrants(env, calls)
  {
    hide ClaimRefusal, Active, Run, Floor;
    forall j: nat, k: nat | j < k < |calls| ensures Floor(calls[j].now) <= Floor(calls[k].now) {
      FloorGrows(calls[j].now, calls[k].now);
    }
  }

  lemma FloorGrows(s: int, t: int)
    requires s <= t
    ensures Floor(s) <= Floor(t)
  {
  }
}
