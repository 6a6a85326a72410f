/**
 Device enrollment as the atomic stretches between `await` points. Random identifiers are fresh;
 clock readings are arbitrary, so nothing here rests on the clock moving forward.
*/
module DeviceEnrollment {
  import opened Basics

  const MAX_ENROLL_ATTEMPTS := 5
  const ENROLL_TXN_TTL := 300.0
  const AUTH_CODE_TTL := 300.0

  function ReadScope(): string { "jn.read" }

  datatype Transaction = Transaction(client: string, scopes: seq<string>, expiresAt: real, attempts: nat)

  datatype AuthCode = AuthCode(code: string, client: string, scopes: seq<string>, expiresAt: real)

  /** What has happened, in order. */
  datatype Event =
    | Authorized(txn: string)
    | Wrong(txn: string)
    | Accepted(txn: string)
    | Minted(code: string, client: string)
    | Loaded(auth: AuthCode, client: string)
    | Exchanged(code: string)
    | Tokens(code: string, client: string)

  datatype Provider = Provider(transactions: map<string, Transaction>, codes: map<string, AuthCode>, log: seq<Event>)

  datatype Response =
    | EnrollPage(txn: string)
    | Unknown
    | Form(wrongSecret: bool)
    | RejectedForGood
    | Sleeping
    | Redirect(code: string)
    | Code(auth: Option<AuthCode>)
    | Issued
    | InvalidGrant
    | InvalidScope
    | ServerError

  /** One atomic stretch; `now` and `later` are its clock readings, `id` the random value it draws. */
  datatype Action =
    | Authorize(client: string, scopes: seq<string>, now: real, later: real, id: string)
    | Show(txn: string, now: real)
    | Submit(txn: string, submitted: string, expected: string, fallback: seq<string>, now: real, later: real, id: string)
    | Resume(txn: string)
    | Load(code: string, client: string, now: real)
    | Exchange(auth: AuthCode, client: string)

  predicate IsIdentifierChar(c: char) {
    'A' <= c <= 'Z' || 'a' <= c <= 'z' || '0' <= c <= '9' || c in "._:@/-"
  }

  predicate IsIdentifier(s: string) {
    && 1 <= |s| <= 128 && (forall i :: 0 <= i < |s| ==> IsIdentifierChar(s[i]))
    && s[0] !in "._:@/-"
  }

  /** A letter or digit and at most 127 more letters, digits or "._:@/-". */
  lemma IdentifierGrammar(c: char, rest: string)
    ensures IsIdentifier([c] + rest) <==>
              && ('A' <= c <= 'Z' || 'a' <= c <= 'z' || '0' <= c <= '9') && |rest| <= 127
              && forall i :: 0 <= i < |rest| ==>
                   'A' <= rest[i] <= 'Z' || 'a' <= rest[i] <= 'z' || '0' <= rest[i] <= '9' || rest[i] in {'.', '_', ':', '@', '/', '-'}
    ensures !IsIdentifier("")
  {
    var s := [c] + rest;
    forall x: char ensures x in "._:@/-" <==> x in {'.', '_', ':', '@', '/', '-'} {
      assert "._:@/-" == ['.', '_', ':', '@', '/', '-'];
    }
    if IsIdentifier(s) {
      forall i | 0 <= i < |rest| ensures IsIdentifierChar(rest[i]) { assert s[i + 1] == rest[i]; }
    }
  }

  function PrunedTransactions(m: map<string, Transaction>, now: real): map<string, Transaction> {
    map t | t in m && m[t].expiresAt > now :: m[t]
  }

  function PrunedCodes(m: map<string, AuthCode>, now: real): map<string, AuthCode> {
    map c | c in m && m[c].expiresAt > now :: m[c]
  }

  function Prune(p: Provider, now: real): Provider {
    p.(transactions := PrunedTransactions(p.transactions, now), codes := PrunedCodes(p.codes, now))
  }

  /** A transaction that can still be used; it lives one reading longer here than under Prune. */
  predicate Live(p: Provider, txn: string, now: real) {
    txn in p.transactions && p.transactions[txn].expiresAt >= now
  }

  /** Freshness of what is drawn at random. */
  ghost predicate Enabled(p: Provider, a: Action) {
    match a
    case Authorize(_, _, _, _, id) => Authorized(id) !in p.log
    case Submit(_, _, _, _, _, _, id) => forall c :: Minted(id, c) !in p.log
    case _ => true
  }

  function Step(p: Provider, a: Action): (Provider, Response) {
    match a
    case Authorize(client, scopes, now, later, id) =>
      var q := Prune(p, now);
      if client == "" then (q, ServerError)
      else
        (q.(transactions := q.transactions[id := Transaction(client, scopes, later + ENROLL_TXN_TTL, 0)],
            log := q.log + [Authorized(id)]),
         EnrollPage(id))
    case Show(txn, now) =>
      if Live(p, txn, now) then (p, Form(false)) else (p.(transactions := p.transactions - {txn}), Unknown)
    case Submit(txn, submitted, expected, fallback, now, later, id) =>
      if !Live(p, txn, now) then (p.(transactions := p.transactions - {txn}), Unknown)
      else
        var t := p.transactions[txn];
        if submitted != expected then
          var attempts := t.attempts + 1;
          (p.(transactions := if attempts >= MAX_ENROLL_ATTEMPTS then p.transactions - {txn}
                              else p.transactions[txn := t.(attempts := attempts)],
              log := p.log + [Wrong(txn)]),
           Sleeping)
        else
          var scopes := if t.scopes != [] then t.scopes else fallback;
          (Provider(p.transactions - {txn},
                    p.codes[id := AuthCode(id, t.client, scopes, later + AUTH_CODE_TTL)],
                    p.log + [Accepted(txn), Minted(id, t.client)]),
           Redirect(id))
    case Resume(txn) =>
      (p, if txn in p.transactions then Form(true) else RejectedForGood)
    case Load(code, client, now) =>
      var q := Prune(p, now);
      if code in q.codes && q.codes[code].client == client then
        (q.(log := q.log + [Loaded(q.codes[code], client)]), Code(Some(q.codes[code])))
      else (q, Code(None))
    case Exchange(auth, client) =>
      if auth.code !in p.codes then (p, InvalidGrant)
      else
        var q := p.(codes := p.codes - {auth.code});
        if IsIdentifier(client) && auth.scopes == [ReadScope()] then
          (q.(log := p.log + [Exchanged(auth.code), Tokens(auth.code, client)]), Issued)
        else (q.(log := p.log + [Exchanged(auth.code)]), InvalidScope)
  }

  /** The provider's mutable state. */
  class DeviceOAuthProvider {
    var transactions: map<string, Transaction>
    var codes: map<string, AuthCode>
    ghost var log: seq<Event>

    ghost function Now(): Provider
      reads this
    {
      Provider(transactions, codes, log)
    }

    constructor ()
      ensures Now() == Provider(map[], map[], [])
    {
      transactions, codes, log := map[], map[], [];
    }

    method PruneExpired(now: real)
      modifies this
      ensures Now() == Prune(old(Now()), now)
    {
      transactions := map t | t in transactions && transactions[t].expiresAt > now :: transactions[t];
      codes := map c | c in codes && codes[c].expiresAt > now :: codes[c];
    }

    method GetTransaction(txn: string, now: real) returns (t: Option<Transaction>)
      modifies this
      ensures Now() == if Live(old(Now()), txn, now) then old(Now())
                       else old(Now()).(transactions := old(transactions) - {txn})
      ensures t == if Live(old(Now()), txn, now) then Some(old(transactions)[txn]) else None
    {
      if txn !in transactions || transactions[txn].expiresAt < now {
        transactions := transactions - {txn};
        return None;
      }
      t := Some(transactions[txn]);
    }

    method Authorize(client: string, scopes: seq<string>, now: real, later: real, id: string) returns (r: Response)
      modifies this
      ensures (Now(), r) == Step(old(Now()), Action.Authorize(client, scopes, now, later, id))
    {
      PruneExpired(now);
      if client == "" { return ServerError; }
      transactions := transactions[id := Transaction(client, scopes, later + ENROLL_TXN_TTL, 0)];
      log := log + [Authorized(id)];
      r := EnrollPage(id);
    }

    method ShowForm(txn: string, now: real) returns (r: Response)
      modifies this
      ensures (Now(), r) == Step(old(Now()), Show(txn, now))
    {
      var t := GetTransaction(txn, now);
      r := if t.None? then Unknown else Form(false);
    }

    /** The stretch from the parsed form to the sleep of a wrong secret or to the redirect. */
    method Submit(txn: string, submitted: string, expected: string, fallback: seq<string>, now: real, later: real, id: string)
      returns (r: Response)
      modifies this
      ensures (Now(), r) == Step(old(Now()), Action.Submit(txn, submitted, expected, fallback, now, later, id))
    {
      var found := GetTransaction(txn, now);
      if found.None? { return Unknown; }
      var t := found.value;
      if submitted != expected {
        t := t.(attempts := t.attempts + 1);
        transactions := transactions[txn := t];
        log := log + [Wrong(txn)];
        if t.attempts >= MAX_ENROLL_ATTEMPTS {
          transactions := transactions - {txn};
          assert transactions == old(transactions) - {txn};
        }
        return Sleeping;
      }
      transactions := transactions - {txn};
      var scopes := if t.scopes != [] then t.scopes else fallback;
      codes := codes[id := AuthCode(id, t.client, scopes, later + AUTH_CODE_TTL)];
      log := log + [Accepted(txn), Minted(id, t.client)];
      r := Redirect(id);
    }

    /** The stretch after the sleep. */
    method Resume(txn: string) returns (r: Response)
      ensures (Now(), r) == Step(old(Now()), Action.Resume(txn))
    {
      r := if txn !in transactions then RejectedForGood else Form(true);
    }

    method LoadAuthorizationCode(code: string, client: string, now: real) returns (r: Response)
      modifies this
      ensures (Now(), r) == Step(old(Now()), Load(code, client, now))
    {
      PruneExpired(now);
      if code !in codes || codes[code].client != client { return Code(None); }
      log := log + [Loaded(codes[code], client)];
      r := Code(Some(codes[code]));
    }

    /** The code is gone before the tokens are made, whether or not they can be. */
    method ExchangeAuthorizationCode(auth: AuthCode, client: string) returns (r: Response)
      modifies this
      ensures (Now(), r) == Step(old(Now()), Exchange(auth, client))
    {
      if auth.code !in codes { return InvalidGrant; }
      codes := codes - {auth.code};
      log := log + [Exchanged(auth.code)];
      if !IsIdentifier(client) || auth.scopes != [ReadScope()] { return InvalidScope; }
      log := log + [Tokens(auth.code, client)];
      assert old(log) + [Exchanged(auth.code)] + [Tokens(auth.code, client)] ==
             old(log) + [Exchanged(auth.code), Tokens(auth.code, client)];
      r := Issued;
    }
  }
}
