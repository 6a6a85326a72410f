/** What holds in every interleaving of enrollment requests. */
module DeviceEnrollmentRuns {
  import opened Basics
  import opened DeviceEnrollment

  ghost function Next(p: Provider, a: Action): Provider {
    if Enabled(p, a) then Step(p, a).0 else p
  }

  ghost function Run(actions: seq<Action>): Provider {
    if actions == [] then Provider(map[], map[], []) else Next(Run(actions[..|actions| - 1]), actions[|actions| - 1])
  }

  ghost function Count(log: seq<Event>, e: Event): nat { multiset(log)[e] }

  lemma Appended(log: seq<Event>, more: seq<Event>, e: Event)
    ensures Count(log + more, e) == Count(log, e) + Count(more, e)
    ensures e in log <==> Count(log, e) > 0
  {
    assert multiset(log + more) == multiset(log) + multiset(more);
  }

  // One transaction

  /** What is known of one transaction ID. */
  ghost predicate TransactionOk(p: Provider, txn: string) {
    && Count(p.log, Wrong(txn)) <= MAX_ENROLL_ATTEMPTS
    && Count(p.log, Accepted(txn)) <= 1
    && (Count(p.log, Accepted(txn)) == 1 ==> Count(p.log, Wrong(txn)) < MAX_ENROLL_ATTEMPTS)
    && (Count(p.log, Authorized(txn)) == 0 ==>
          Count(p.log, Wrong(txn)) == 0 && Count(p.log, Accepted(txn)) == 0 && txn !in p.transactions)
    && (txn in p.transactions ==>
          && p.transactions[txn].attempts == Count(p.log, Wrong(txn)) < MAX_ENROLL_ATTEMPTS
          && Count(p.log, Accepted(txn)) == 0)
  }

  /** The events that a step appends. */
  ghost function News(p: Provider, a: Action): (more: seq<Event>)
    ensures Next(p, a).log == p.log + more
  {
    var q := Next(p, a);
    LogGrows(p, a);
    q.log[|p.log|..]
  }

  lemma LogGrows(p: Provider, a: Action)
    ensures p.log <= Next(p, a).log
  {
  }

  lemma TransactionStep(p: Provider, a: Action, txn: string)
    requires TransactionOk(p, txn)
    ensures TransactionOk(Next(p, a), txn)
  {
    hide Count, PrunedCodes, IsIdentifier, ReadScope;
    Appended(p.log, News(p, a), Wrong(txn));
    Appended(p.log, News(p, a), Accepted(txn));
    Appended(p.log, News(p, a), Authorized(txn));
    NewsOfTransaction(p, a, txn);
  }

  /** What a step can say about one transaction. */
  lemma NewsOfTransaction(p: Provider, a: Action, txn: string)
    ensures var more := News(p, a);
            && Count(more, Wrong(txn)) == (if Enabled(p, a) && a.Submit? && a.txn == txn && Live(p, txn, a.now)
                                              && a.submitted != a.expected then 1 else 0)
            && Count(more, Accepted(txn)) == (if Enabled(p, a) && a.Submit? && a.txn == txn && Live(p, txn, a.now)
                                                 && a.submitted == a.expected then 1 else 0)
            && Count(more, Authorized(txn)) == (if Enabled(p, a) && a.Authorize? && a.client != "" && a.id == txn then 1 else 0)
  {
    hide PrunedCodes, PrunedTransactions, IsIdentifier, ReadScope, Enabled;
  }

  lemma {:induction false} TransactionsOk(actions: seq<Action>, txn: string)
    ensures TransactionOk(Run(actions), txn)
  {
    hide TransactionOk, Next;
    if actions == [] {
      NothingOk(txn);
    } else {
      TransactionsOk(actions[..|actions| - 1], txn);
      TransactionStep(Run(actions[..|actions| - 1]), actions[|actions| - 1], txn);
    }
  }

  lemma NothingOk(txn: string)
    ensures TransactionOk(Provider(map[], map[], []), txn)
  {
  }

  /**
   In every interleaving a transaction takes at most five wrong secrets, is accepted at most once,
   and is never accepted once the fifth has come in.
  */
  lemma AttemptsAreLimited(actions: seq<Action>, txn: string)
    ensures var log := Run(actions).log;
            && Count(log, Wrong(txn)) <= MAX_ENROLL_ATTEMPTS
            && Count(log, Accepted(txn)) <= 1
            && (Count(log, Wrong(txn)) == MAX_ENROLL_ATTEMPTS ==> Count(log, Accepted(txn)) == 0)
  {
    hide Run, Count;
    TransactionsOk(actions, txn);
  }

  // One code

  ghost predicate IsMinted(log: seq<Event>, code: string) { exists c :: Minted(code, c) in log }

  /** What is known of one authorization code. */
  ghost predicate CodeOk(p: Provider, code: string) {
    && Count(p.log, Exchanged(code)) <= 1
    && (code in p.codes ==>
          && p.codes[code].code == code && Minted(code, p.codes[code].client) in p.log
          && Count(p.log, Exchanged(code)) == 0)
    && (!IsMinted(p.log, code) ==> Count(p.log, Exchanged(code)) == 0)
    && (forall c, d :: Minted(code, c) in p.log && Minted(code, d) in p.log ==> c == d)
    && (forall c :: Count(p.log, Minted(code, c)) <= 1)
  }

  predicate Accepts(p: Provider, a: Action) {
    a.Submit? && Live(p, a.txn, a.now) && a.submitted == a.expected
  }

  /** What a step can say about one code. */
  lemma NewExchange(p: Provider, a: Action, code: string)
    ensures Count(News(p, a), Exchanged(code)) ==
              if Enabled(p, a) && a.Exchange? && a.auth.code == code && code in p.codes then 1 else 0
  {
    hide PrunedCodes, PrunedTransactions, IsIdentifier, ReadScope, Enabled;
  }

  lemma NewCode(p: Provider, a: Action, code: string, client: string)
    ensures Count(News(p, a), Minted(code, client)) ==
              if Enabled(p, a) && Accepts(p, a) && a.id == code && p.transactions[a.txn].client == client then 1 else 0
  {
    hide PrunedCodes, PrunedTransactions, IsIdentifier, ReadScope, Enabled;
  }

  /** What a step does to one entry of the code table. */
  lemma CodeEntry(p: Provider, a: Action, code: string)
    requires code in Next(p, a).codes
    ensures if Enabled(p, a) && Accepts(p, a) && a.id == code
            then Next(p, a).codes[code].code == code && Next(p, a).codes[code].client == p.transactions[a.txn].client
            else code in p.codes && Next(p, a).codes[code] == p.codes[code] && !(a.Exchange? && a.auth.code == code)
  {
    hide PrunedTransactions, IsIdentifier, ReadScope;
  }

  lemma CodeStep(p: Provider, a: Action, code: string)
    requires CodeOk(p, code)
    ensures CodeOk(Next(p, a), code)
  {
    hide Count, Next, Step, IsMinted;
    var q, more := Next(p, a), News(p, a);
    NewExchange(p, a, code);
    Appended(p.log, more, Exchanged(code));
    forall c
      ensures Count(q.log, Minted(code, c)) == Count(p.log, Minted(code, c)) +
                if Enabled(p, a) && Accepts(p, a) && a.id == code && p.transactions[a.txn].client == c then 1 else 0
      ensures Minted(code, c) in p.log <==> Count(p.log, Minted(code, c)) > 0
      ensures Minted(code, c) in q.log <==> Count(q.log, Minted(code, c)) > 0
    {
      NewCode(p, a, code, c);
      Appended(p.log, more, Minted(code, c));
      Appended(q.log, [], Minted(code, c));
    }
    IsMintedWhen(p.log, code);
    IsMintedWhen(q.log, code);
    if code in q.codes { CodeEntry(p, a, code); }
  }

  lemma IsMintedWhen(log: seq<Event>, code: string)
    ensures IsMinted(log, code) <==> exists c :: Minted(code, c) in log
  {
  }

  lemma {:induction false} CodesOk(actions: seq<Action>, code: string)
    ensures CodeOk(Run(actions), code)
  {
    hide CodeOk, Next;
    if actions == [] {
      NoCodeOk(code);
    } else {
      CodesOk(actions[..|actions| - 1], code);
      CodeStep(Run(actions[..|actions| - 1]), actions[|actions| - 1], code);
    }
  }

  lemma NoCodeOk(code: string)
    ensures CodeOk(Provider(map[], map[], []), code)
  {
  }

  /** A code is minted once, for one client, and exchanged at most once, after it was minted. */
  lemma CodesAreSingleUse(actions: seq<Action>, code: string, client: string)
    ensures var log := Run(actions).log;
            && Count(log, Minted(code, client)) <= 1
            && Count(log, Exchanged(code)) <= 1
            && (Exchanged(code) in log ==> IsMinted(log, code))
            && (forall other :: Minted(code, client) in log && Minted(code, other) in log ==> other == client)
  {
    hide Run, Count;
    CodesOk(actions, code);
    Appended(Run(actions).log, [], Exchanged(code));
  }

  // Who gets the tokens

  /** Exchanges are made for codes that the same client loaded, as the token endpoint does. */
  ghost predicate LoadsFirst(actions: seq<Action>) {
    forall k :: 0 <= k < |actions| && actions[k].Exchange? ==>
      Loaded(actions[k].auth, actions[k].client) in Run(actions[..k]).log
  }

  ghost predicate OwnersOk(p: Provider) {
    && (forall auth, c :: Loaded(auth, c) in p.log ==> Minted(auth.code, c) in p.log)
    && (forall code, c :: Tokens(code, c) in p.log ==> Minted(code, c) in p.log)
  }

  lemma OwnersStep(p: Provider, a: Action)
    requires OwnersOk(p) && (a.Exchange? ==> Loaded(a.auth, a.client) in p.log)
    requires a.Load? ==> CodeOk(p, a.code)
    ensures OwnersOk(Next(p, a))
  {
    hide Count, IsIdentifier, ReadScope, PrunedTransactions, Live;
  }

  lemma {:induction false} OwnersHold(actions: seq<Action>)
    requires LoadsFirst(actions)
    ensures OwnersOk(Run(actions))
  {
    hide OwnersOk, Next, CodeOk;
    if actions == [] {
      NoOwners();
    } else {
      var before, a := actions[..|actions| - 1], actions[|actions| - 1];
      assert forall k :: 0 <= k < |before| ==> before[..k] == actions[..k];
      OwnersHold(before);
      if a.Load? { CodesOk(before, a.code); }
      OwnersStep(Run(before), a);
    }
  }

  lemma NoOwners()
    ensures OwnersOk(Provider(map[], map[], []))
  {
  }

  /** Tokens for a code go to the client it was minted for, and to no other. */
  lemma TokensGoToTheirClient(actions: seq<Action>, code: string, client: string, owner: string)
    requires LoadsFirst(actions)
    requires Tokens(code, client) in Run(actions).log && Minted(code, owner) in Run(actions).log
    ensures client == owner
  {
    hide Run, Count;
    OwnersHold(actions);
    CodesOk(actions, code);
  }

  // Totals

  datatype Kind = OfAuthorize | OfWrong | OfAccept | OfMint | OfExchange | OfOther

  function KindOf(e: Event): Kind {
    match e
    case Authorized(_) => OfAuthorize
    case Wrong(_) => OfWrong
    case Accepted(_) => OfAccept
    case Minted(_, _) => OfMint
    case Exchanged(_) => OfExchange
    case _ => OfOther
  }

  function Tally(log: seq<Event>, k: Kind): nat {
    if log == [] then 0 else Tally(log[..|log| - 1], k) + if KindOf(log[|log| - 1]) == k then 1 else 0
  }

  lemma TallyOne(log: seq<Event>, e: Event, k: Kind)
    ensures Tally(log + [e], k) == Tally(log, k) + if KindOf(e) == k then 1 else 0
  {
    assert (log + [e])[..|log|] == log;
  }

  lemma TallyTwo(log: seq<Event>, d: Event, e: Event, k: Kind)
    ensures Tally(log + [d, e], k) == Tally(log, k) + (if KindOf(d) == k then 1 else 0) + if KindOf(e) == k then 1 else 0
  {
    assert log + [d, e] == log + [d] + [e];
    TallyOne(log, d, k);
    TallyOne(log + [d], e, k);
  }

  /** Open transactions and codes are paid for: each code by an acceptance, each acceptance by an authorization. */
  ghost predicate Balanced(p: Provider) {
    && Tally(p.log, OfExchange) + |p.codes| <= Tally(p.log, OfMint)
    && Tally(p.log, OfMint) == Tally(p.log, OfAccept)
    && Tally(p.log, OfAccept) + |p.transactions| <= Tally(p.log, OfAuthorize)
  }

  lemma FewerKeys<T>(small: map<string, T>, large: map<string, T>)
    requires small.Keys <= large.Keys
    ensures |small| <= |large|
  {
    assert large.Keys == small.Keys + (large.Keys - small.Keys);
    assert |small| == |small.Keys| && |large| == |large.Keys|;
  }

  lemma OneKeyMore<T>(m: map<string, T>, k: string, v: T)
    ensures |m[k := v]| <= |m| + 1
    ensures k in m ==> |m[k := v]| == |m|
  {
    assert m[k := v].Keys == m.Keys + {k};
    assert |m[k := v]| == |m[k := v].Keys| && |m| == |m.Keys|;
  }

  lemma OneKeyLess<T>(m: map<string, T>, k: string)
    requires k in m
    ensures |m - {k}| == |m| - 1
  {
    assert (m - {k}).Keys == m.Keys - {k};
    assert |m - {k}| == |(m - {k}).Keys| && |m| == |m.Keys|;
  }

  lemma LoggedOne(log: seq<Event>, e: Event)
    ensures forall k: Kind :: Tally(log + [e], k) == Tally(log, k) + if KindOf(e) == k then 1 else 0
  {
    forall k: Kind ensures Tally(log + [e], k) == Tally(log, k) + if KindOf(e) == k then 1 else 0 {
      TallyOne(log, e, k);
    }
  }

  lemma LoggedTwo(log: seq<Event>, d: Event, e: Event)
    ensures forall k: Kind :: Tally(log + [d, e], k) ==
                                Tally(log, k) + (if KindOf(d) == k then 1 else 0) + if KindOf(e) == k then 1 else 0
  {
    forall k: Kind
      ensures Tally(log + [d, e], k) == Tally(log, k) + (if KindOf(d) == k then 1 else 0) + if KindOf(e) == k then 1 else 0
    {
      TallyTwo(log, d, e, k);
    }
  }

  lemma BalancedSubmit(p: Provider, a: Action)
    requires Balanced(p) && a.Submit? && Live(p, a.txn, a.now)
    ensures Balanced(Step(p, a).0)
  {
    hide IsIdentifier, ReadScope, Tally, Live;
    assert Live(p, a.txn, a.now) ==> a.txn in p.transactions by { LiveIsThere(p, a.txn, a.now); }
    var t := p.transactions[a.txn];
    OneKeyMore(p.transactions, a.txn, t.(attempts := t.attempts + 1));
    OneKeyLess(p.transactions, a.txn);
    OneKeyMore(p.codes, a.id, AuthCode(a.id, t.client, if t.scopes != [] then t.scopes else a.fallback, a.later + AUTH_CODE_TTL));
    LoggedOne(p.log, Wrong(a.txn));
    LoggedTwo(p.log, Accepted(a.txn), Minted(a.id, t.client));
  }

  lemma LiveIsThere(p: Provider, txn: string, now: real)
    ensures Live(p, txn, now) ==> txn in p.transactions
  {
  }

  lemma BalancedExchange(p: Provider, a: Action)
    requires Balanced(p) && a.Exchange?
    ensures Balanced(Step(p, a).0)
  {
    hide IsIdentifier, ReadScope, Tally;
    if a.auth.code in p.codes {
      OneKeyLess(p.codes, a.auth.code);
      LoggedOne(p.log, Exchanged(a.auth.code));
      LoggedTwo(p.log, Exchanged(a.auth.code), Tokens(a.auth.code, a.client));
    }
  }

  lemma BalancedPrune(p: Provider, now: real)
    requires Balanced(p)
    ensures Balanced(Prune(p, now))
  {
    hide Tally;
    FewerKeys(PrunedTransactions(p.transactions, now), p.transactions);
    FewerKeys(PrunedCodes(p.codes, now), p.codes);
  }

  lemma BalancedAuthorize(p: Provider, a: Action)
    requires Balanced(p) && a.Authorize?
    ensures Balanced(Step(p, a).0)
  {
    hide PrunedTransactions, PrunedCodes, Tally;
    BalancedPrune(p, a.now);
    OneKeyMore(PrunedTransactions(p.transactions, a.now), a.id, Transaction(a.client, a.scopes, a.later + ENROLL_TXN_TTL, 0));
    LoggedOne(p.log, Authorized(a.id));
  }

  lemma BalancedLoad(p: Provider, a: Action)
    requires Balanced(p) && a.Load?
    ensures Balanced(Step(p, a).0)
  {
    hide PrunedTransactions, PrunedCodes, Tally;
    BalancedPrune(p, a.now);
    var q := Prune(p, a.now);
    if a.code in q.codes { LoggedOne(p.log, Loaded(q.codes[a.code], a.client)); }
  }

  lemma BalancedLookup(p: Provider, a: Action)
    requires Balanced(p) && (a.Show? || (a.Submit? && !Live(p, a.txn, a.now)) || a.Resume?)
    ensures Balanced(Step(p, a).0)
  {
    hide Tally, Live;
    FewerKeys(p.transactions - {a.txn}, p.transactions);
  }

  lemma BalancedStep(p: Provider, a: Action)
    requires Balanced(p)
    ensures Balanced(Next(p, a))
  {
    hide Enabled, Tally, Step, Live, Balanced;
    match a
    case Authorize(_, _, _, _, _) => BalancedAuthorize(p, a);
    case Submit(_, _, _, _, _, _, _) =>
      if Live(p, a.txn, a.now) { BalancedSubmit(p, a); } else { BalancedLookup(p, a); }
    case Show(_, _) => BalancedLookup(p, a);
    case Load(_, _, _) => BalancedLoad(p, a);
    case Exchange(_, _) => BalancedExchange(p, a);
    case Resume(_) => BalancedLookup(p, a);
  }

  lemma {:induction false} BalanceHolds(actions: seq<Action>)
    ensures Balanced(Run(actions))
  {
    hide Balanced, Next;
    if actions == [] {
      NothingBalances();
    } else {
      BalanceHolds(actions[..|actions| - 1]);
      BalancedStep(Run(actions[..|actions| - 1]), actions[|actions| - 1]);
    }
  }

  lemma NothingBalances()
    ensures Balanced(Provider(map[], map[], []))
  {
  }

  /** Exchanges never outnumber correct submissions, nor correct submissions the transactions opened. */
  lemma ExchangesAreEarned(actions: seq<Action>)
    ensures var log := Run(actions).log;
            Tally(log, OfExchange) <= Tally(log, OfAccept) <= Tally(log, OfAuthorize)
  {
    hide Run, Tally;
    BalanceHolds(actions);
  }

  /** Wrong secrets are counted against the transactions that were opened. */
  function WrongOf(log: seq<Event>, starts: seq<Event>): nat {
    if starts == [] then 0
    else WrongOf(log, starts[..|starts| - 1]) +
         match starts[|starts| - 1] case Authorized(t) => multiset(log)[Wrong(t)] case _ => 0
  }

  lemma {:induction false} WrongOfMore(log: seq<Event>, e: Event, starts: seq<Event>)
    ensures WrongOf(log + [e], starts) >= WrongOf(log, starts)
    ensures e.Wrong? && Authorized(e.txn) in starts ==> WrongOf(log + [e], starts) > WrongOf(log, starts)
  {
    assert multiset(log + [e]) == multiset(log) + multiset{e};
    if starts != [] {
      WrongOfMore(log, e, starts[..|starts| - 1]);
      assert starts == starts[..|starts| - 1] + [starts[|starts| - 1]];
    }
  }

  lemma {:induction false} WrongsAreCounted(log: seq<Event>, starts: seq<Event>)
    requires forall t :: Wrong(t) in log ==> Authorized(t) in starts
    ensures Tally(log, OfWrong) <= WrongOf(log, starts)
  {
    if log != [] {
      var before, e := log[..|log| - 1], log[|log| - 1];
      assert log == before + [e];
      WrongsAreCounted(before, starts);
      WrongOfMore(before, e, starts);
    }
  }

  lemma {:induction false} WrongsAreFew(log: seq<Event>, starts: seq<Event>)
    requires forall t :: Count(log, Wrong(t)) <= MAX_ENROLL_ATTEMPTS
    ensures WrongOf(log, starts) <= MAX_ENROLL_ATTEMPTS * Tally(starts, OfAuthorize)
  {
    if starts != [] {
      WrongsAreFew(log, starts[..|starts| - 1]);
      if starts[|starts| - 1].Authorized? {
        assert Count(log, Wrong(starts[|starts| - 1].txn)) <= MAX_ENROLL_ATTEMPTS;
      }
    }
  }

  /** However requests interleave, guessing is limited to five secrets for each transaction opened. */
  lemma GuessesAreLimited(actions: seq<Action>)
    ensures var log := Run(actions).log;
            Tally(log, OfWrong) <= MAX_ENROLL_ATTEMPTS * Tally(log, OfAuthorize)
  {
    hide Run, Count, Tally, WrongOf;
    var log := Run(actions).log;
    forall t: string ensures Count(log, Wrong(t)) <= MAX_ENROLL_ATTEMPTS && (Wrong(t) in log ==> Authorized(t) in log) {
      TransactionsOk(actions, t);
      Appended(log, [], Wrong(t));
      Appended(log, [], Authorized(t));
    }
    WrongsAreCounted(log, log);
    WrongsAreFew(log, log);
  }

  // The flow the protocol is for

  /** The clock readings of an action come before `t`. */
  predicate ReadsBefore(a: Action, t: real) {
    match a
    case Authorize(_, _, now, _, _) => now < t
    case Show(_, now) => now < t
    case Submit(_, _, _, _, now, _, _) => now < t
    case Load(_, _, now) => now < t
    case _ => true
  }

  predicate Tries(a: Action, txn: string) { a.Submit? && a.txn == txn }

  function Attempts(actions: seq<Action>, txn: string): nat {
    if actions == [] then 0
    else Attempts(actions[..|actions| - 1], txn) + if Tries(actions[|actions| - 1], txn) then 1 else 0
  }

  /** Actions that leave a transaction open: all in its time, and fewer than five tries at it, all wrong. */
  ghost predicate LeavesOpen(actions: seq<Action>, txn: string, expiresAt: real) {
    && (forall k :: 0 <= k < |actions| ==> ReadsBefore(actions[k], expiresAt))
    && (forall k :: 0 <= k < |actions| && Tries(actions[k], txn) ==> actions[k].submitted != actions[k].expected)
    && Attempts(actions, txn) < MAX_ENROLL_ATTEMPTS
  }

  /** Actions that leave a code in place: all in its time, and none exchanges it. */
  ghost predicate LeavesCode(actions: seq<Action>, code: string, expiresAt: real) {
    forall k :: 0 <= k < |actions| ==>
      ReadsBefore(actions[k], expiresAt) && !(actions[k].Exchange? && actions[k].auth.code == code)
  }

  ghost predicate IsOpen(p: Provider, txn: string, client: string, scopes: seq<string>, expiresAt: real, attempts: nat) {
    && Authorized(txn) in p.log && txn in p.transactions
    && var t := p.transactions[txn];
       t.client == client && t.scopes == scopes && t.expiresAt == expiresAt && t.attempts <= attempts
  }

  lemma OpenStep(p: Provider, a: Action, txn: string, client: string, scopes: seq<string>, expiresAt: real, n: nat)
    requires IsOpen(p, txn, client, scopes, expiresAt, n) && ReadsBefore(a, expiresAt)
    requires Tries(a, txn) ==> a.submitted != a.expected && n + 1 < MAX_ENROLL_ATTEMPTS
    ensures IsOpen(Next(p, a), txn, client, scopes, expiresAt, if Tries(a, txn) then n + 1 else n)
  {
    hide IsIdentifier, ReadScope, PrunedCodes;
    LogGrows(p, a);
  }

  lemma {:induction false} StaysOpen(base: seq<Action>, actions: seq<Action>, txn: string, client: string, scopes: seq<string>,
                                     expiresAt: real)
    requires IsOpen(Run(base), txn, client, scopes, expiresAt, 0) && LeavesOpen(actions, txn, expiresAt)
    ensures IsOpen(Run(base + actions), txn, client, scopes, expiresAt, Attempts(actions, txn))
    decreases |actions|
  {
    hide IsOpen, Next, Run, ReadsBefore, Tries;
    if actions == [] {
      assert base + actions == base;
    } else {
      var most, last := actions[..|actions| - 1], actions[|actions| - 1];
      assert base + actions == base + most + [last];
      StaysOpen(base, most, txn, client, scopes, expiresAt);
      RunMore(base + most, last);
      OpenStep(Run(base + most), last, txn, client, scopes, expiresAt, Attempts(most, txn));
    }
  }

  ghost predicate IsReady(p: Provider, auth: AuthCode) {
    Minted(auth.code, auth.client) in p.log && auth.code in p.codes && p.codes[auth.code] == auth
  }

  lemma ReadyStep(p: Provider, a: Action, auth: AuthCode)
    requires IsReady(p, auth) && ReadsBefore(a, auth.expiresAt) && !(a.Exchange? && a.auth.code == auth.code)
    ensures IsReady(Next(p, a), auth)
  {
    hide IsIdentifier, ReadScope, PrunedTransactions, Live;
    LogGrows(p, a);
  }

  lemma {:induction false} StaysReady(base: seq<Action>, actions: seq<Action>, auth: AuthCode)
    requires IsReady(Run(base), auth) && LeavesCode(actions, auth.code, auth.expiresAt)
    ensures IsReady(Run(base + actions), auth)
    decreases |actions|
  {
    hide IsReady, Next, Run, ReadsBefore;
    if actions == [] {
      assert base + actions == base;
    } else {
      var most, last := actions[..|actions| - 1], actions[|actions| - 1];
      assert base + actions == base + most + [last];
      StaysReady(base, most, auth);
      RunMore(base + most, last);
      ReadyStep(Run(base + most), last, auth);
    }
  }

  lemma Opens(p: Provider, a: Action)
    requires a.Authorize? && a.client != "" && Enabled(p, a)
    ensures IsOpen(Next(p, a), a.id, a.client, a.scopes, a.later + ENROLL_TXN_TTL, 0)
  {
    hide PrunedCodes, PrunedTransactions;
  }

  lemma Mints(p: Provider, a: Action, client: string, scopes: seq<string>, expiresAt: real, n: nat)
    requires a.Submit? && a.submitted == a.expected && Enabled(p, a)
    requires IsOpen(p, a.txn, client, scopes, expiresAt, n) && a.now <= expiresAt
    ensures IsReady(Next(p, a), AuthCode(a.id, client, if scopes != [] then scopes else a.fallback, a.later + AUTH_CODE_TTL))
  {
  }

  lemma Loads(p: Provider, auth: AuthCode, now: real)
    requires IsReady(p, auth) && now < auth.expiresAt
    ensures var q := Next(p, Load(auth.code, auth.client, now)); IsReady(q, auth) && Loaded(auth, auth.client) in q.log
  {
    hide PrunedTransactions;
  }

  lemma Issues(p: Provider, auth: AuthCode)
    requires IsReady(p, auth) && IsIdentifier(auth.client) && auth.scopes == [ReadScope()]
    ensures Tokens(auth.code, auth.client) in Next(p, Exchange(auth, auth.client)).log
  {
    hide IsIdentifier, ReadScope;
  }

  lemma RunMore(actions: seq<Action>, a: Action)
    ensures Run(actions + [a]) == Next(Run(actions), a)
  {
    hide Next;
    assert (actions + [a])[..|actions|] == actions;
  }

  /**
   From any reachable state, whatever else happens in between: authorizing, submitting the secret after
   at most four wrong ones, loading the code and exchanging it, each in time, yields tokens.
  */
  lemma EnrollmentCompletes(before: seq<Action>, opening: Action, tries: seq<Action>, submission: Action,
                            waiting: seq<Action>, loaded: real, last: seq<Action>)
    requires opening.Authorize? && IsIdentifier(opening.client) && Enabled(Run(before), opening)
    requires LeavesOpen(tries, opening.id, opening.later + ENROLL_TXN_TTL)
    requires submission.Submit? && submission.txn == opening.id && submission.submitted == submission.expected
    requires submission.now <= opening.later + ENROLL_TXN_TTL && Enabled(Run(before + [opening] + tries), submission)
    requires (if opening.scopes != [] then opening.scopes else submission.fallback) == [ReadScope()]
    requires LeavesCode(waiting, submission.id, submission.later + AUTH_CODE_TTL)
    requires loaded < submission.later + AUTH_CODE_TTL
    requires LeavesCode(last, submission.id, submission.later + AUTH_CODE_TTL)
    ensures var auth := AuthCode(submission.id, opening.client, [ReadScope()], submission.later + AUTH_CODE_TTL);
            var shown := before + [opening] + tries + [submission] + waiting + [Load(auth.code, auth.client, loaded)];
            && Loaded(auth, auth.client) in Run(shown).log
            && Tokens(auth.code, auth.client) in Run(shown + last + [Exchange(auth, auth.client)]).log
  {
    hide IsIdentifier, ReadScope, Next, Run, Enabled, LeavesOpen, LeavesCode, IsOpen, IsReady, Attempts;
    var txn, client, expiresAt := opening.id, opening.client, opening.later + ENROLL_TXN_TTL;
    var auth := AuthCode(submission.id, client, [ReadScope()], submission.later + AUTH_CODE_TTL);
    var p1 := before + [opening];
    NotEmpty(client);
    RunMore(before, opening);
    Opens(Run(before), opening);
    StaysOpen(p1, tries, txn, client, opening.scopes, expiresAt);
    var p2 := p1 + tries + [submission];
    RunMore(p1 + tries, submission);
    Mints(Run(p1 + tries), submission, client, opening.scopes, expiresAt, Attempts(tries, txn));
    StaysReady(p2, waiting, auth);
    var shown := p2 + waiting + [Load(auth.code, client, loaded)];
    RunMore(p2 + waiting, Load(auth.code, client, loaded));
    Loads(Run(p2 + waiting), auth, loaded);
    StaysReady(shown, last, auth);
    RunMore(shown + last, Exchange(auth, client));
    Issues(Run(shown + last), auth);
  }

  lemma NotEmpty(client: string)
    requires IsIdentifier(client)
    ensures client != ""
  {
  }
}
