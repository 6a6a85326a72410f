/** What the enrollment provider holds and answers, read off the requests so far and not off its tables. */
module DeviceEnrollmentAnswers {
  import opened Basics
  import opened DeviceEnrollment
  import opened DeviceEnrollmentRuns

  /** Request `m` of the run could happen when it came. */
  ghost predicate Happens(actions: seq<Action>, m: nat) {
    m < |actions| && Enabled(Run(actions[..m]), actions[m])
  }

  /**
   The request leaves a transaction that ends at `end`: a prune comes before the end, a look-up not after
   it, and no right secret is given.
  */
  predicate Spares(a: Action, txn: string, end: real) {
    match a
    case Authorize(_, _, now, _, _) => now < end
    case Load(_, _, now) => now < end
    case Show(t, now) => t == txn ==> now <= end
    case Submit(t, submitted, expected, _, now, _, _) => t == txn ==> now <= end && submitted != expected
    case _ => true
  }

  /** Request `j` opened the transaction, for 300 seconds; every request since spares it, and fewer than five wrong secrets came in. */
  ghost predicate OpenFrom(actions: seq<Action>, j: nat, txn: string) {
    && Happens(actions, j) && actions[j].Authorize? && actions[j].id == txn && actions[j].client != ""
    && (forall m: nat :: j < m && Happens(actions, m) ==> Spares(actions[m], txn, actions[j].later + 300.0))
    && Count(Run(actions).log, Wrong(txn)) < 5
  }

  lemma HappensBefore(actions: seq<Action>, m: nat)
    requires m < |actions| - 1
    ensures Happens(actions, m) <==> Happens(actions[..|actions| - 1], m)
  {
    hide Run, Enabled;
    assert actions[..|actions| - 1][..m] == actions[..m];
  }

  lemma {:induction false} OpeningIsLogged(actions: seq<Action>, j: nat)
    requires Happens(actions, j) && actions[j].Authorize? && actions[j].client != ""
    ensures Authorized(actions[j].id) in Run(actions).log
    decreases |actions|
  {
    hide Enabled, Prune;
    var before := actions[..|actions| - 1];
    if j < |before| {
      HappensBefore(actions, j);
      OpeningIsLogged(before, j);
      LogGrows(Run(before), actions[|actions| - 1]);
    }
  }

  /** What one request makes of an entry that it does not open. */
  lemma EntryStep(p: Provider, a: Action, txn: string)
    requires TransactionOk(p, txn) && Enabled(p, a) && !(a.Authorize? && a.id == txn && a.client != "")
    ensures var q := Next(p, a);
            && (txn in q.transactions <==>
                  txn in p.transactions && Spares(a, txn, p.transactions[txn].expiresAt) && Count(q.log, Wrong(txn)) < 5)
            && (txn in q.transactions ==> q.transactions[txn] == p.transactions[txn].(attempts := Count(q.log, Wrong(txn))))
  {
    hide Count, PrunedCodes, IsIdentifier, ReadScope;
    Appended(p.log, News(p, a), Wrong(txn));
    NewsOfTransaction(p, a, txn);
  }

  lemma OpenFromBefore(actions: seq<Action>, j: nat, txn: string)
    requires actions != [] && j < |actions| - 1
    requires var last := |actions| - 1;
             Happens(actions, last) ==> !(actions[last].Authorize? && actions[last].id == txn && actions[last].client != "")
    ensures var before, last := actions[..|actions| - 1], |actions| - 1;
            OpenFrom(actions, j, txn) <==>
              && OpenFrom(before, j, txn)
              && (Happens(actions, last) ==> Spares(actions[last], txn, actions[j].later + 300.0))
              && Count(Run(actions).log, Wrong(txn)) < 5
  {
    hide Run, Enabled, Spares, Count, Happens;
    var before := actions[..|actions| - 1];
    forall m: nat | m < |before| ensures Happens(actions, m) <==> Happens(before, m) { HappensBefore(actions, m); }
    forall m: nat ensures Happens(actions, m) ==> m < |actions| { HappensInRange(actions, m); }
    forall m: nat ensures Happens(before, m) ==> m < |before| { HappensInRange(before, m); }
    WrongsGrow(actions, txn);
  }

  lemma HappensInRange(actions: seq<Action>, m: nat)
    ensures Happens(actions, m) ==> m < |actions|
  {
  }

  lemma WrongsGrow(actions: seq<Action>, txn: string)
    requires actions != []
    ensures Count(Run(actions[..|actions| - 1]).log, Wrong(txn)) <= Count(Run(actions).log, Wrong(txn))
  {
    hide Next, Count;
    var p, a := Run(actions[..|actions| - 1]), actions[|actions| - 1];
    Appended(p.log, News(p, a), Wrong(txn));
  }

  /** The table holds a transaction exactly when some request opened it and nothing ended it since. */
  ghost predicate Tabled(actions: seq<Action>, txn: string) {
    && (txn in Run(actions).transactions ==> exists j: nat :: OpenFrom(actions, j, txn))
    && (forall j: nat :: OpenFrom(actions, j, txn) ==>
          && j < |actions| && actions[j].Authorize? && txn in Run(actions).transactions
          && Run(actions).transactions[txn] ==
               Transaction(actions[j].client, actions[j].scopes, actions[j].later + 300.0, Count(Run(actions).log, Wrong(txn))))
  }

  lemma {:induction false} OpenExactly(actions: seq<Action>, txn: string)
    ensures Tabled(actions, txn)
    decreases |actions|
  {
    hide Run, Next, Enabled, Count, OpenFrom, Tabled, TransactionOk;
    if actions == [] {
      NothingTabled(txn);
    } else {
      var before, last := actions[..|actions| - 1], |actions| - 1;
      OpenExactly(before, txn);
      TransactionsOk(before, txn);
      if Happens(actions, last) && actions[last].Authorize? && actions[last].id == txn && actions[last].client != "" {
        TabledWhenOpened(actions, txn);
      } else {
        TabledOtherwise(actions, txn);
      }
    }
  }

  lemma NothingTabled(txn: string)
    ensures Tabled([], txn)
  {
    hide Count;
  }

  lemma TabledWhenOpened(actions: seq<Action>, txn: string)
    requires actions != [] && TransactionOk(Run(actions[..|actions| - 1]), txn)
    requires var last := |actions| - 1;
             Happens(actions, last) && actions[last].Authorize? && actions[last].id == txn && actions[last].client != ""
    ensures Tabled(actions, txn)
  {
    hide Count, PrunedTransactions, PrunedCodes, Spares;
    var before, last := actions[..|actions| - 1], |actions| - 1;
    var p := Run(before);
    Appended(p.log, [], Authorized(txn));
    Appended(p.log, [Authorized(txn)], Wrong(txn));
    assert Count([Authorized(txn)], Wrong(txn)) == 0 by { CountOther(Authorized(txn), Wrong(txn)); }
    assert OpenFrom(actions, last, txn);
    forall j: nat | OpenFrom(actions, j, txn) ensures j == last {
      if j < last {
        HappensBefore(actions, j);
        OpeningIsLogged(before, j);
      }
    }
  }

  lemma CountOther(e: Event, f: Event)
    requires e != f
    ensures Count([e], f) == 0
  {
  }

  lemma TabledOtherwise(actions: seq<Action>, txn: string)
    requires actions != [] && TransactionOk(Run(actions[..|actions| - 1]), txn) && Tabled(actions[..|actions| - 1], txn)
    requires var last := |actions| - 1;
             Happens(actions, last) ==> !(actions[last].Authorize? && actions[last].id == txn && actions[last].client != "")
    ensures Tabled(actions, txn)
  {
    hide Count, Step, Spares, OpenFrom, Enabled;
    var before, last := actions[..|actions| - 1], |actions| - 1;
    var p, a := Run(before), actions[last];
    assert Happens(actions, last) <==> Enabled(p, a);
    if Enabled(p, a) { EntryStep(p, a, txn); }
    forall j: nat
      ensures OpenFrom(actions, j, txn) <==>
                && OpenFrom(before, j, txn)
                && (Happens(actions, last) ==> Spares(a, txn, actions[j].later + 300.0))
                && Count(Run(actions).log, Wrong(txn)) < 5
    {
      if j < last { OpenFromBefore(actions, j, txn); } else { OpenInRange(actions, before, j, txn); }
    }
    if txn in Run(actions).transactions {
      var j: nat :| OpenFrom(before, j, txn);
      assert OpenFrom(actions, j, txn);
    }
  }

  lemma OpenInRange(actions: seq<Action>, before: seq<Action>, j: nat, txn: string)
    requires j >= |before|
    ensures !OpenFrom(before, j, txn)
    ensures OpenFrom(actions, j, txn) ==>
              && j < |actions| && Happens(actions, j)
              && actions[j].Authorize? && actions[j].id == txn && actions[j].client != ""
  {
  }

  // Codes

  /** The request leaves a code: a prune comes before its end, and nothing exchanges it. */
  predicate SparesCode(a: Action, auth: AuthCode) {
    match a
    case Authorize(_, _, now, _, _) => now < auth.expiresAt
    case Load(_, _, now) => now < auth.expiresAt
    case Exchange(other, _) => other.code != auth.code
    case _ => true
  }

  /** Request `j` gave the right secret in time for the transaction that request `i` had opened. */
  ghost predicate EarnsAt(actions: seq<Action>, i: nat, j: nat) {
    && Happens(actions, j) && actions[j].Submit? && actions[j].submitted == actions[j].expected
    && OpenFrom(actions[..j], i, actions[j].txn)
    && i < j && actions[i].Authorize? && actions[j].now <= actions[i].later + 300.0
  }

  /** The code earned so: for the client that opened the transaction, its scopes or else the fallback, and 300 seconds. */
  ghost predicate EarnsCode(actions: seq<Action>, i: nat, j: nat, auth: AuthCode) {
    && EarnsAt(actions, i, j)
    && auth == AuthCode(actions[j].id, actions[i].client,
                        if actions[i].scopes != [] then actions[i].scopes else actions[j].fallback, actions[j].later + 300.0)
  }

  /** The code was earned and every request since spares it. */
  ghost predicate CodeFrom(actions: seq<Action>, i: nat, j: nat, auth: AuthCode) {
    EarnsCode(actions, i, j, auth) && forall m: nat :: j < m && Happens(actions, m) ==> SparesCode(actions[m], auth)
  }

  lemma EarnsBefore(actions: seq<Action>, i: nat, j: nat, auth: AuthCode)
    requires j < |actions| - 1
    ensures EarnsCode(actions, i, j, auth) <==> EarnsCode(actions[..|actions| - 1], i, j, auth)
  {
    hide Run, Enabled, Happens, OpenFrom;
    HappensBefore(actions, j);
    assert actions[..|actions| - 1][..j] == actions[..j];
  }

  lemma CodeFromBefore(actions: seq<Action>, i: nat, j: nat, auth: AuthCode)
    requires j < |actions| - 1
    ensures var before, last := actions[..|actions| - 1], |actions| - 1;
            CodeFrom(actions, i, j, auth) <==>
              CodeFrom(before, i, j, auth) && (Happens(actions, last) ==> SparesCode(actions[last], auth))
  {
    hide Run, Enabled, SparesCode, Happens, EarnsCode;
    var before := actions[..|actions| - 1];
    EarnsBefore(actions, i, j, auth);
    forall m: nat | m < |before| ensures Happens(actions, m) <==> Happens(before, m) { HappensBefore(actions, m); }
    forall m: nat ensures Happens(actions, m) ==> m < |actions| { HappensInRange(actions, m); }
    forall m: nat ensures Happens(before, m) ==> m < |before| { HappensInRange(before, m); }
  }

  /** A request is accepted exactly when it earns a code. */
  lemma AcceptsWhenEarned(actions: seq<Action>, auth: AuthCode)
    requires actions != []
    ensures var last := |actions| - 1;
            var p, a := Run(actions[..last]), actions[last];
            (Enabled(p, a) && Accepts(p, a) && a.id == auth.code && Next(p, a).codes[auth.code] == auth)
              <==> exists i: nat :: EarnsCode(actions, i, last, auth)
  {
    hide Run, Enabled, OpenFrom, Count, PrunedCodes, PrunedTransactions;
    var last := |actions| - 1;
    var before, a := actions[..last], actions[last];
    assert Happens(actions, last) <==> Enabled(Run(before), a) by { HappensLast(actions); }
    if a.Submit? {
      OpenExactly(before, a.txn);
      if Accepts(Run(before), a) {
        var i: nat :| OpenFrom(before, i, a.txn);
        assert i < |before| && before[i] == actions[i];
        if Enabled(Run(before), a) && a.id == auth.code && Next(Run(before), a).codes[auth.code] == auth {
          assert EarnsCode(actions, i, last, auth);
        }
      }
    }
  }

  lemma HappensLast(actions: seq<Action>)
    requires actions != []
    ensures Happens(actions, |actions| - 1) <==> Enabled(Run(actions[..|actions| - 1]), actions[|actions| - 1])
  {
    hide Run, Enabled;
  }

  ghost predicate IsHeld(p: Provider, auth: AuthCode) { auth.code in p.codes && p.codes[auth.code] == auth }

  ghost predicate IsEarned(actions: seq<Action>, auth: AuthCode) { exists i: nat, j: nat :: CodeFrom(actions, i, j, auth) }

  /** What one request makes of a code. */
  lemma HeldStep(p: Provider, a: Action, auth: AuthCode)
    requires Enabled(p, a)
    ensures IsHeld(Next(p, a), auth) <==>
              if Accepts(p, a) && a.id == auth.code then Next(p, a).codes[auth.code] == auth
              else IsHeld(p, auth) && SparesCode(a, auth)
  {
    hide IsIdentifier, ReadScope, PrunedTransactions;
  }

  lemma {:induction false} EarningIsLogged(actions: seq<Action>, i: nat, j: nat, auth: AuthCode)
    requires EarnsCode(actions, i, j, auth)
    ensures IsMinted(Run(actions).log, auth.code)
    decreases |actions|
  {
    hide Enabled, OpenFrom, Next;
    var last := |actions| - 1;
    var before := actions[..last];
    if j < last {
      EarnsBefore(actions, i, j, auth);
      EarningIsLogged(before, i, j, auth);
      var c :| Minted(auth.code, c) in Run(before).log;
      LogGrows(Run(before), actions[last]);
      assert Minted(auth.code, c) in Run(actions).log;
    } else {
      AcceptsWhenEarned(actions, auth);
      MintIsLogged(Run(before), actions[last]);
    }
  }

  lemma MintIsLogged(p: Provider, a: Action)
    requires Enabled(p, a) && Accepts(p, a)
    ensures IsMinted(Next(p, a).log, a.id)
  {
    var client := p.transactions[a.txn].client;
    var log := Next(p, a).log;
    assert log[|log| - 1] == Minted(a.id, client);
  }

  lemma EarnedStep(actions: seq<Action>, auth: AuthCode)
    requires actions != []
    requires var last := |actions| - 1;
             !(Happens(actions, last) && exists i: nat :: EarnsCode(actions, i, last, auth))
    ensures var before, last := actions[..|actions| - 1], |actions| - 1;
            IsEarned(actions, auth) <==> IsEarned(before, auth) && (Happens(actions, last) ==> SparesCode(actions[last], auth))
  {
    hide Run, Enabled, SparesCode, Happens, EarnsCode, CodeFrom;
    var before, last := actions[..|actions| - 1], |actions| - 1;
    forall i: nat, j: nat | CodeFrom(actions, i, j, auth) ensures j < last { CodeInRange(actions, i, j, auth); }
    forall i: nat, j: nat | CodeFrom(before, i, j, auth) ensures j < last { CodeInRange(before, i, j, auth); }
    forall i: nat, j: nat | j < last
      ensures CodeFrom(actions, i, j, auth) <==>
                CodeFrom(before, i, j, auth) && (Happens(actions, last) ==> SparesCode(actions[last], auth))
    {
      CodeFromBefore(actions, i, j, auth);
    }
  }

  lemma CodeInRange(actions: seq<Action>, i: nat, j: nat, auth: AuthCode)
    requires CodeFrom(actions, i, j, auth)
    ensures j < |actions| && Happens(actions, j) && EarnsCode(actions, i, j, auth)
  {
    hide Run, Enabled;
  }

  /** The provider holds a code exactly when it was earned, and neither exchanged nor pruned since. */
  lemma {:induction false} CodesExactly(actions: seq<Action>, auth: AuthCode)
    ensures IsHeld(Run(actions), auth) <==> IsEarned(actions, auth)
    decreases |actions|
  {
    hide Next, Enabled, EarnsCode, Happens, SparesCode, Live;
    if actions == [] {
      NothingEarned(auth);
    } else {
      var before, last := actions[..|actions| - 1], |actions| - 1;
      var p, a := Run(before), actions[last];
      CodesExactly(before, auth);
      HappensLast(actions);
      AcceptsWhenEarned(actions, auth);
      if Enabled(p, a) { HeldStep(p, a, auth); }
      if Enabled(p, a) && Accepts(p, a) && a.id == auth.code {
        NewCodeOnly(actions, auth);
      } else {
        EarnedStep(actions, auth);
      }
      NextWhenDisabled(p, a);
    }
  }

  lemma NextWhenDisabled(p: Provider, a: Action)
    ensures !Enabled(p, a) ==> Next(p, a) == p
  {
  }

  lemma NothingEarned(auth: AuthCode)
    ensures !IsEarned([], auth) && !IsHeld(Run([]), auth)
  {
    hide Enabled;
  }

  /** A request that mints a code is the only one that ever earned it. */
  lemma NewCodeOnly(actions: seq<Action>, auth: AuthCode)
    requires actions != []
    requires var p, a := Run(actions[..|actions| - 1]), actions[|actions| - 1];
             Enabled(p, a) && Accepts(p, a) && a.id == auth.code
    ensures var last := |actions| - 1; IsEarned(actions, auth) <==> exists i: nat :: EarnsCode(actions, i, last, auth)
  {
    hide Run, Next, EarnsCode, SparesCode, Count;
    var before, last := actions[..|actions| - 1], |actions| - 1;
    forall i: nat, j: nat | CodeFrom(actions, i, j, auth) ensures j == last {
      CodeInRange(actions, i, j, auth);
      if j < last {
        EarnsBefore(actions, i, j, auth);
        EarningIsLogged(before, i, j, auth);
      }
    }
    if i: nat :| EarnsCode(actions, i, last, auth) {
      forall m: nat ensures Happens(actions, m) ==> m <= last { HappensInRange(actions, m); }
      assert CodeFrom(actions, i, last, auth);
    }
  }

  // Answers

  /** The transaction is open at `now`, by the request that opened it. */
  ghost predicate IsOpenAt(actions: seq<Action>, txn: string, now: real) {
    exists j: nat :: OpenFrom(actions, j, txn) && j < |actions| && actions[j].Authorize? && now <= actions[j].later + 300.0
  }

  /** The right response to the next request. */
  ghost predicate Answers(actions: seq<Action>, a: Action, r: Response) {
    match a
    case Authorize(client, _, _, _, id) => r == if client == "" then ServerError else EnrollPage(id)
    case Show(txn, now) => r == if IsOpenAt(actions, txn, now) then Form(false) else Unknown
    case Submit(txn, submitted, expected, _, now, _, id) =>
      r == if !IsOpenAt(actions, txn, now) then Unknown else if submitted == expected then Redirect(id) else Sleeping
    case Resume(txn) => r == if exists j: nat :: OpenFrom(actions, j, txn) then Form(true) else RejectedForGood
    case Load(code, client, now) =>
      && r.Code?
      && (r.auth.Some? ==> r.auth.value.code == code)
      && forall auth: AuthCode :: auth.code == code ==>
           (r.auth == Some(auth) <==> IsEarned(actions, auth) && auth.client == client && now < auth.expiresAt)
    case Exchange(auth, client) =>
      r == if !(exists held: AuthCode :: held.code == auth.code && IsEarned(actions, held)) then InvalidGrant
           else if IsIdentifier(client) && auth.scopes == ["jn.read"] then Issued
           else InvalidScope
  }

  lemma OpenAtIsLive(actions: seq<Action>, txn: string, now: real)
    ensures IsOpenAt(actions, txn, now) <==> Live(Run(actions), txn, now)
    ensures txn in Run(actions).transactions <==> exists j: nat :: OpenFrom(actions, j, txn)
  {
    hide Run, OpenFrom, Count;
    OpenExactly(actions, txn);
    if txn in Run(actions).transactions { var j: nat :| OpenFrom(actions, j, txn); }
  }

  /** In every run, each request gets the right response, read off the requests before it. */
  lemma ResponsesAreRight(actions: seq<Action>, a: Action)
    ensures Answers(actions, a, Step(Run(actions), a).1)
  {
    hide Run, OpenFrom, IsEarned, IsOpenAt, IsIdentifier, PrunedTransactions, IsHeld;
    var p := Run(actions);
    match a
    case Authorize(_, _, _, _, _) =>
    case Show(txn, now) => OpenAtIsLive(actions, txn, now);
    case Submit(txn, _, _, _, now, _, _) => OpenAtIsLive(actions, txn, now);
    case Resume(txn) => OpenAtIsLive(actions, txn, 0.0);
    case Load(code, client, now) => LoadIsRight(actions, code, client, now);
    case Exchange(auth, client) => ExchangeIsRight(actions, auth, client);
  }

  lemma LoadIsRight(actions: seq<Action>, code: string, client: string, now: real)
    ensures Answers(actions, Load(code, client, now), Step(Run(actions), Load(code, client, now)).1)
  {
    hide Run, IsEarned, PrunedTransactions, CodeOk;
    forall auth: AuthCode | auth.code == code ensures IsHeld(Run(actions), auth) <==> IsEarned(actions, auth) {
      CodesExactly(actions, auth);
    }
    CodesOk(actions, code);
    HeldCode(Run(actions), code);
  }

  lemma HeldCode(p: Provider, code: string)
    requires CodeOk(p, code)
    ensures code in p.codes ==> p.codes[code].code == code && IsHeld(p, p.codes[code])
  {
    hide Count;
  }

  lemma ExchangeIsRight(actions: seq<Action>, auth: AuthCode, client: string)
    ensures Answers(actions, Exchange(auth, client), Step(Run(actions), Exchange(auth, client)).1)
  {
    hide Run, IsEarned, CodeOk, IsIdentifier;
    forall held: AuthCode | held.code == auth.code ensures IsHeld(Run(actions), held) <==> IsEarned(actions, held) {
      CodesExactly(actions, held);
    }
    CodesOk(actions, auth.code);
    HeldCode(Run(actions), auth.code);
    if auth.code in Run(actions).codes { assert IsEarned(actions, Run(actions).codes[auth.code]); }
  }

  /** Request `k` showed the code to its client before the code's end. */
  ghost predicate ShownAt(actions: seq<Action>, k: nat, auth: AuthCode) {
    && k < |actions| && actions[k].Load? && actions[k].code == auth.code && actions[k].client == auth.client
    && actions[k].now < auth.expiresAt && IsEarned(actions[..k], auth)
  }

  lemma {:induction false} LoadedIsShown(actions: seq<Action>, auth: AuthCode, client: string)
    requires Loaded(auth, client) in Run(actions).log
    ensures client == auth.client && exists k: nat :: ShownAt(actions, k, auth)
    decreases |actions|
  {
    hide IsEarned, IsIdentifier, ReadScope, PrunedTransactions, Live;
    var last := |actions| - 1;
    var before, a := actions[..last], actions[last];
    if Loaded(auth, client) in Run(before).log {
      LoadedIsShown(before, auth, client);
      var k: nat :| ShownAt(before, k, auth);
      assert before[..k] == actions[..k];
      assert ShownAt(actions, k, auth);
    } else {
      CodesOk(before, a.code);
      CodesExactly(before, auth);
      assert ShownAt(actions, last, auth);
    }
  }

  /**
   Where exchanges follow loads, as at the token endpoint, a code for which tokens are issued was shown to
   its client before the 300 seconds of the accepting request were over. The exchange itself reads no clock.
  */
  lemma ExchangedWasShownInTime(actions: seq<Action>, k: nat)
    requires LoadsFirst(actions) && k < |actions| && actions[k].Exchange?
    ensures exists m: nat :: ShownAt(actions[..k], m, actions[k].auth) && actions[k].client == actions[k].auth.client
  {
    hide Run, ShownAt;
    LoadedIsShown(actions[..k], actions[k].auth, actions[k].client);
  }
}
