/** The collaborator check: one upstream question at a time, answers cached for a bounded time. */
module CollaboratorCache {
  import opened Basics
  import Decimal

  datatype State = Allowed | Denied | Unavailable

  datatype Reason = RequestError | UnexpectedError | Github | UpstreamStatus | InvalidIdentity | Cached

  datatype Decision = Decision(state: State, status: Option<nat>, reason: Reason)

  datatype Entry = Entry(state: State, status: nat, expiresAt: real)

  type Key = (string, string)

  type Cache = map<Key, Entry>

  datatype Ttls = Ttls(positive: real, negative: real)

  datatype Reply = Status(code: nat) | TransportError | ClientError

  /** One check: the identity, the clock reading, and, should GitHub be asked, when it decides and what comes back. */
  datatype Query = Query(userId: string, login: string, now: real, decidedAt: real, reply: Reply)

  /** Alphanumeric at both ends, hyphens between, at most 39 characters. */
  predicate ValidLogin(s: string) {
    && 1 <= |s| <= 39 && IsAlphanumeric(s[0]) && IsAlphanumeric(s[|s| - 1])
    && forall i :: 0 <= i < |s| ==> IsAlphanumeric(s[i]) || s[i] == '-'
  }

  /** Decimal digits that denote a positive number. */
  predicate ValidUserId(s: string) {
    && s != "" && (forall i :: 0 <= i < |s| ==> '0' <= s[i] <= '9')
    && exists i :: 0 <= i < |s| && s[i] != '0'
  }

  predicate ValidIdentity(q: Query) { ValidUserId(q.userId) && ValidLogin(q.login) }

  predicate IsHyphenated(s: string) { forall i :: 0 <= i < |s| ==> IsAlphanumeric(s[i]) || s[i] == '-' }

  /** The login is one alphanumeric character, or two with at most 37 alphanumeric characters and hyphens between them. */
  lemma LoginGrammar(c: char, mid: string, d: char)
    ensures ValidLogin([c]) <==> IsAlphanumeric(c)
    ensures ValidLogin([c] + mid + [d]) <==> IsAlphanumeric(c) && IsAlphanumeric(d) && |mid| <= 37 && IsHyphenated(mid)
    ensures !ValidLogin("")
  {
    hide IsAlphanumeric;
    var s := [c] + mid + [d];
    if ValidLogin(s) {
      forall i | 0 <= i < |mid| ensures IsAlphanumeric(mid[i]) || mid[i] == '-' { assert s[i + 1] == mid[i]; }
    }
  }

  /** The user ID is a run of digits that denotes a positive number. */
  lemma {:induction false} UserIdIsPositive(s: string)
    requires Decimal.AllDigits(s)
    ensures ValidUserId(s) <==> Decimal.Value(s) > 0
  {
    if s != "" {
      var front := s[..|s| - 1];
      UserIdIsPositive(front);
      if ValidUserId(front) {
        var i :| 0 <= i < |front| && front[i] != '0';
        assert s[i] != '0';
      } else if s[|s| - 1] == '0' {
        assert forall i :: 0 <= i < |front| ==> front[i] == s[i];
      } else {
        assert s[|s| - 1] != '0' && forall i :: 0 <= i < |s| ==> Decimal.IsDigit(s[i]);
      }
    }
  }

  function KeyOf(q: Query): Key { (q.userId, LowerAscii(q.login)) }

  /** What one answer from GitHub means. */
  function Meaning(r: Reply): Decision {
    match r
    case TransportError => Decision(Unavailable, None, RequestError)
    case ClientError => Decision(Unavailable, None, UnexpectedError)
    case Status(204) => Decision(Allowed, Some(204), Github)
    case Status(404) => Decision(Denied, Some(404), Github)
    case Status(code) => Decision(Unavailable, Some(code), UpstreamStatus)
  }

  predicate Hit(c: Cache, q: Query) { KeyOf(q) in c && c[KeyOf(q)].expiresAt > q.now }

  /** Whether a check asks GitHub. */
  predicate Asks(c: Cache, q: Query) { ValidIdentity(q) && !Hit(c, q) }

  function Ttl(ttls: Ttls, s: State): real { if s == Allowed then ttls.positive else ttls.negative }

  /** One check: the cache after it and the decision. */
  function Step(ttls: Ttls, c: Cache, q: Query): (Cache, Decision) {
    if !ValidIdentity(q) then (c, Decision(Unavailable, None, InvalidIdentity))
    else if Hit(c, q) then (c, Decision(c[KeyOf(q)].state, Some(c[KeyOf(q)].status), Cached))
    else
      var d := Meaning(q.reply);
      var rest := c - {KeyOf(q)};
      if d.state == Unavailable then (rest, d)
      else (rest[KeyOf(q) := Entry(d.state, d.status.value, q.now + Ttl(ttls, d.state))], d)
  }

  class ContributorAuthorizer {
    const ttls: Ttls
    var cache: Cache

    constructor (ttls: Ttls)
      ensures cache == map[] && this.ttls == ttls
    {
      this.ttls, cache := ttls, map[];
    }

    /** The body of check(), which holds the lock from the clock reading to the end. */
    method Check(q: Query) returns (d: Decision)
      modifies this
      ensures (cache, d) == Step(ttls, old(cache), q)
    {
      if !ValidUserId(q.userId) || !ValidLogin(q.login) {
        return Decision(Unavailable, None, InvalidIdentity);
      }
      var key := KeyOf(q);
      if key in cache && cache[key].expiresAt > q.now {
        return Decision(cache[key].state, Some(cache[key].status), Cached);
      }
      cache := cache - {key};
      d := Meaning(q.reply);
      if d.state == Unavailable { return; }
      var ttl := if d.state == Allowed then ttls.positive else ttls.negative;
      cache := cache[key := Entry(d.state, if d.status.Some? then d.status.value else 0, q.now + ttl)];
    }
  }

  // Runs from an empty cache

  function CacheAfter(ttls: Ttls, qs: seq<Query>): Cache {
    if qs == [] then map[] else Step(ttls, CacheAfter(ttls, qs[..|qs| - 1]), qs[|qs| - 1]).0
  }

  /** The decision of the k-th check of a run. */
  function Answer(ttls: Ttls, qs: seq<Query>, k: nat): Decision
    requires k < |qs|
  {
    Step(ttls, CacheAfter(ttls, qs[..k]), qs[k]).1
  }

  predicate AsksAt(ttls: Ttls, qs: seq<Query>, k: nat)
    requires k < |qs|
  {
    Asks(CacheAfter(ttls, qs[..k]), qs[k])
  }

  /** GitHub decides after the reading that precedes the request. */
  ghost predicate Causal(qs: seq<Query>) {
    forall k :: 0 <= k < |qs| ==> qs[k].now <= qs[k].decidedAt
  }

  ghost predicate MonotoneClock(qs: seq<Query>) {
    forall j, k :: 0 <= j < k < |qs| ==> qs[j].now <= qs[k].now
  }

  // What a check answers

  /** The same number, and the same login up to the case of its letters. */
  predicate SameCaller(p: Query, q: Query) { p.userId == q.userId && SameLetters(p.login, q.login) }

  lemma SameCallerKey(p: Query, q: Query)
    ensures KeyOf(p) == KeyOf(q) <==> SameCaller(p, q)
  {
    LowerAsciiFolds(p.login, q.login);
  }

  /** Check `j` is the latest to have asked GitHub about the caller of `q`. */
  ghost predicate LatestAsk(ttls: Ttls, qs: seq<Query>, j: nat, q: Query) {
    && j < |qs| && AsksAt(ttls, qs, j) && SameCaller(qs[j], q)
    && forall i: nat :: j < i < |qs| && SameCaller(qs[i], q) ==> !AsksAt(ttls, qs, i)
  }

  /** GitHub's answer to `p`, 204 or 404, is still good at `now`. */
  predicate Lives(ttls: Ttls, p: Query, now: real) {
    || (p.reply == Status(204) && p.now + ttls.positive > now)
    || (p.reply == Status(404) && p.now + ttls.negative > now)
  }

  /** The latest answer about the caller of `q` is still good at its reading. */
  ghost predicate Remembers(ttls: Ttls, qs: seq<Query>, j: nat, q: Query) {
    LatestAsk(ttls, qs, j, q) && Lives(ttls, qs[j], q.now)
  }

  /** The entry holds GitHub's answer to `p` for as long as it is good. */
  predicate Keeps(ttls: Ttls, p: Query, e: Entry) {
    || (p.reply == Status(204) && e == Entry(Allowed, 204, p.now + ttls.positive))
    || (p.reply == Status(404) && e == Entry(Denied, 404, p.now + ttls.negative))
  }

  function Latest(ttls: Ttls, qs: seq<Query>, q: Query): Option<nat> {
    if qs == [] then None
    else if SameCaller(qs[|qs| - 1], q) && AsksAt(ttls, qs, |qs| - 1) then Some(|qs| - 1)
    else Latest(ttls, qs[..|qs| - 1], q)
  }

  lemma {:induction false} LatestIsLatest(ttls: Ttls, qs: seq<Query>, q: Query)
    ensures forall j: nat :: LatestAsk(ttls, qs, j, q) <==> Latest(ttls, qs, q) == Some(j)
  {
    hide SameCaller, Asks, CacheAfter;
    if qs != [] {
      var before := qs[..|qs| - 1];
      LatestIsLatest(ttls, before, q);
      forall i: nat | i < |before| ensures qs[i] == before[i] && AsksAt(ttls, qs, i) == AsksAt(ttls, before, i) {
        assert qs[..i] == before[..i];
      }
    }
  }

  /** What is cached for a caller is the latest answer about it, if that was 204 or 404. */
  lemma {:induction false} EntryIsLatest(ttls: Ttls, qs: seq<Query>, q: Query)
    ensures var c, key, j := CacheAfter(ttls, qs), KeyOf(q), Latest(ttls, qs, q);
            && (j.Some? ==> j.value < |qs|)
            && (key in c <==> j.Some? && qs[j.value].reply in {Status(204), Status(404)})
            && (key in c ==> Keeps(ttls, qs[j.value], c[key]))
  {
    hide ValidIdentity, LowerAscii, SameCaller;
    if qs != [] {
      EntryIsLatest(ttls, qs[..|qs| - 1], q);
      SameCallerKey(qs[|qs| - 1], q);
      assert qs[..|qs|] == qs;
    }
  }

  /**
   A check in any run: without a valid identity it is unavailable; while the latest answer about the
   caller is good it is repeated; otherwise GitHub is asked, and 204 allows, 404 denies and all else is unavailable.
  */
  lemma CheckAnswers(ttls: Ttls, qs: seq<Query>, k: nat)
    requires k < |qs|
    ensures !ValidIdentity(qs[k]) ==> !AsksAt(ttls, qs, k) && Answer(ttls, qs, k) == Decision(Unavailable, None, InvalidIdentity)
    ensures AsksAt(ttls, qs, k) <==> ValidIdentity(qs[k]) && forall j: nat :: !Remembers(ttls, qs[..k], j, qs[k])
    ensures forall j: nat :: ValidIdentity(qs[k]) && Remembers(ttls, qs[..k], j, qs[k]) ==>
              Answer(ttls, qs, k) == if qs[j].reply == Status(204) then Decision(Allowed, Some(204), Cached)
                                     else Decision(Denied, Some(404), Cached)
    ensures AsksAt(ttls, qs, k) ==>
              var r := qs[k].reply;
              && (r == Status(204) ==> Answer(ttls, qs, k) == Decision(Allowed, Some(204), Github))
              && (r == Status(404) ==> Answer(ttls, qs, k) == Decision(Denied, Some(404), Github))
              && (r == TransportError ==> Answer(ttls, qs, k) == Decision(Unavailable, None, RequestError))
              && (r == ClientError ==> Answer(ttls, qs, k) == Decision(Unavailable, None, UnexpectedError))
              && (r.Status? && r.code !in {204, 404} ==> Answer(ttls, qs, k) == Decision(Unavailable, Some(r.code), UpstreamStatus))
  {
    hide ValidIdentity, LatestAsk, CacheAfter, KeyOf, Latest;
    EntryIsLatest(ttls, qs[..k], qs[k]);
    LatestIsLatest(ttls, qs[..k], qs[k]);
    if Hit(CacheAfter(ttls, qs[..k]), qs[k]) { assert Remembers(ttls, qs[..k], Latest(ttls, qs[..k], qs[k]).value, qs[k]); }
  }

  /**
   Allowed means that GitHub answered 204 about the same caller less than the positive lifetime ago, and
   denied that it answered 404 less than the negative lifetime ago.
  */
  lemma AnswersAreBacked(ttls: Ttls, qs: seq<Query>, k: nat)
    requires k < |qs| && Causal(qs) && ttls.positive > 0.0 && ttls.negative > 0.0
    ensures Answer(ttls, qs, k).state == Allowed ==> exists j: nat :: Said(ttls, qs, j, k, 204, ttls.positive)
    ensures Answer(ttls, qs, k).state == Denied ==> exists j: nat :: Said(ttls, qs, j, k, 404, ttls.negative)
  {
    hide ValidIdentity, LowerAscii, SameLetters, CacheAfter;
    CheckAnswers(ttls, qs, k);
    if AsksAt(ttls, qs, k) {
      SameCallerKey(qs[k], qs[k]);
      var r := qs[k].reply;
      assert r == Status(204) ==> Said(ttls, qs, k, k, 204, ttls.positive);
      assert r == Status(404) ==> Said(ttls, qs, k, k, 404, ttls.negative);
    } else if ValidIdentity(qs[k]) {
      var j: nat :| Remembers(ttls, qs[..k], j, qs[k]);
      assert qs[..k][..j] == qs[..j];
      var r := qs[j].reply;
      assert r == Status(204) ==> Said(ttls, qs, j, k, 204, ttls.positive);
      assert r == Status(404) ==> Said(ttls, qs, j, k, 404, ttls.negative);
    }
  }

  /** For check `j`, about the same caller as check `k`, GitHub decided `code` less than `lifetime` before the reading of `k`. */
  ghost predicate Said(ttls: Ttls, qs: seq<Query>, j: nat, k: nat, code: nat, lifetime: real) {
    && j <= k < |qs| && AsksAt(ttls, qs, j) && SameCaller(qs[j], qs[k])
    && qs[j].reply == Status(code) && qs[k].now < qs[j].decidedAt + lifetime
  }

  /** From `since` on GitHub no longer answers so about the caller of `q`. */
  ghost predicate NeverFrom(qs: seq<Query>, q: Query, code: nat, since: real) {
    forall k :: 0 <= k < |qs| && SameCaller(qs[k], q) && qs[k].decidedAt >= since ==> qs[k].reply != Status(code)
  }

  /**
   Staleness bound: when GitHub stops answering 204 (or 404) at `since`, no check of that caller whose clock
   reads `since` plus the lifetime or later still allows (or denies), in any interleaving with other checks.
  */
  lemma StaleAnswersEnd(ttls: Ttls, qs: seq<Query>, k: nat, since: real)
    requires k < |qs| && Causal(qs) && ttls.positive > 0.0 && ttls.negative > 0.0
    ensures NeverFrom(qs, qs[k], 204, since) && qs[k].now >= since + ttls.positive ==> Answer(ttls, qs, k).state != Allowed
    ensures NeverFrom(qs, qs[k], 404, since) && qs[k].now >= since + ttls.negative ==> Answer(ttls, qs, k).state != Denied
  {
    hide SameCaller, Answer, AsksAt;
    AnswersAreBacked(ttls, qs, k);
  }

  /** The bound is tight both ways: at any moment before it, the old answer can still be given. */
  lemma BoundIsTight(ttls: Ttls, allowed: bool, since: real, now: real) returns (qs: seq<Query>)
    requires since <= now < since + if allowed then ttls.positive else ttls.negative
    ensures |qs| == 2 && Causal(qs) && MonotoneClock(qs) && SameCaller(qs[0], qs[1])
    ensures qs[1].now == now && qs[0].decidedAt < since && NeverFrom(qs, qs[1], if allowed then 204 else 404, since)
    ensures Answer(ttls, qs, 1).state == if allowed then Allowed else Denied
  {
    var early := (since + now - if allowed then ttls.positive else ttls.negative) / 2.0;
    var first := Query("7", "a", early, early, Status(if allowed then 204 else 404));
    var second := Query("7", "a", now, now, Status(if allowed then 404 else 204));
    qs := [first, second];
    assert "7"[0] != '0';
    assert ValidIdentity(first) && ValidIdentity(second);
    assert qs[..1] == [first] && [first][..0] == [];
    assert Asks(CacheAfter(ttls, []), first);
    assert AsksAt(ttls, [first], 0);
    assert LatestAsk(ttls, qs[..1], 0, second);
    assert Remembers(ttls, qs[..1], 0, second);
    CheckAnswers(ttls, qs, 1);
  }

  /** While an answer is good, GitHub is not asked about that caller again. */
  lemma AsksOncePerLifetime(ttls: Ttls, qs: seq<Query>, j: nat, k: nat)
    requires j < k < |qs| && MonotoneClock(qs) && AsksAt(ttls, qs, j) && AsksAt(ttls, qs, k) && SameCaller(qs[j], qs[k])
    ensures qs[j].reply == Status(204) ==> qs[k].now >= qs[j].now + ttls.positive
    ensures qs[j].reply == Status(404) ==> qs[k].now >= qs[j].now + ttls.negative
  {
    hide ValidIdentity, LowerAscii, SameLetters, CacheAfter, AsksAt;
    if Lives(ttls, qs[j], qs[k].now) {
      StaysLatest(ttls, qs, j, k);
      CheckAnswers(ttls, qs, k);
    }
  }

  /** Until its answer ends, the check that asked stays the latest to have asked. */
  lemma {:induction false} StaysLatest(ttls: Ttls, qs: seq<Query>, j: nat, k: nat)
    requires j < k < |qs| && MonotoneClock(qs) && AsksAt(ttls, qs, j) && SameCaller(qs[j], qs[k]) && Lives(ttls, qs[j], qs[k].now)
    ensures LatestAsk(ttls, qs[..k], j, qs[k])
    decreases k
  {
    hide ValidIdentity, LowerAscii, SameLetters, CacheAfter;
    assert qs[..k][..j] == qs[..j];
    forall i: nat | j < i < k && SameCaller(qs[i], qs[k]) ensures !AsksAt(ttls, qs[..k], i) {
      SameCallerKey(qs[i], qs[k]);
      SameCallerKey(qs[j], qs[k]);
      SameCallerKey(qs[j], qs[i]);
      StaysLatest(ttls, qs, j, i);
      CheckAnswers(ttls, qs, i);
      assert qs[..k][..i] == qs[..i];
    }
  }

  // Callers do not affect each other

  function OfKey(qs: seq<Query>, key: Key): seq<Query> {
    if qs == [] then []
    else OfKey(qs[..|qs| - 1], key) + if KeyOf(qs[|qs| - 1]) == key then [qs[|qs| - 1]] else []
  }

  /** What the cache holds for a key depends on the checks of that key alone. */
  lemma {:induction false} KeysAreIndependent(ttls: Ttls, qs: seq<Query>, key: Key)
    ensures var c, own := CacheAfter(ttls, qs), CacheAfter(ttls, OfKey(qs, key));
            (key in c <==> key in own) && (key in c ==> c[key] == own[key])
  {
    hide ValidIdentity, KeyOf, Meaning, Ttl;
    if qs != [] {
      var before, q := qs[..|qs| - 1], qs[|qs| - 1];
      KeysAreIndependent(ttls, before, key);
      if KeyOf(q) == key {
        assert OfKey(qs, key)[..|OfKey(qs, key)| - 1] == OfKey(before, key);
      } else {
        assert OfKey(qs, key) == OfKey(before, key);
      }
    }
  }

  /** So a caller gets the same decision however many others are served in between. */
  lemma AnswersAreIndependent(ttls: Ttls, qs: seq<Query>, q: Query)
    ensures Step(ttls, CacheAfter(ttls, qs), q).1 == Step(ttls, CacheAfter(ttls, OfKey(qs, KeyOf(q))), q).1
  {
    KeysAreIndependent(ttls, qs, KeyOf(q));
  }
}
