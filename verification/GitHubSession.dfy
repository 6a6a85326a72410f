/** The GitHub session under the services: reads retried at most three times, mutations sent exactly once. */
module GitHubSession {
  import opened Basics

  const MAX_ATTEMPTS := 3

  /** What json() makes of a body. */
  datatype Body = NotJson | JsonObject | JsonList | OtherJson

  datatype RetryAfter = NoHeader | Unusable | Seconds(value: real)

  /** The parts of a response that the session looks at. */
  datatype Response = Response(status: int, body: Body, retryAfter: RetryAfter, remainingIsZero: bool, textSaysLimit: bool)

  /** One exchange over the wire: a response or a transport error. */
  datatype Exchange = Received(response: Response) | Broken

  datatype Code = CredentialUnavailable | UpstreamUnavailable | NotFound

  predicate IsOk(status: int) { 200 <= status < 300 }

  predicate RateLimited(r: Response) {
    r.status == 429 || (r.status == 403 && (r.retryAfter != NoHeader || r.remainingIsZero || r.textSaysLimit))
  }

  /** Another attempt can help. */
  predicate Transient(e: Exchange) {
    e.Broken? || (!IsOk(e.response.status) && e.response.status !in {401, 404} && (e.response.status >= 500 || RateLimited(e.response)))
  }

  /** The outcome of an attempt that is not retried. */
  function Settled(e: Exchange, wanted: Body, notFoundIsCredential: bool): Result<Body, Code> {
    if e.Broken? then Err(UpstreamUnavailable)
    else
      var r := e.response;
      if IsOk(r.status) then (if r.body == wanted then Ok(r.body) else Err(UpstreamUnavailable))
      else if r.status == 401 then Err(CredentialUnavailable)
      else if r.status == 404 then Err(if notFoundIsCredential then CredentialUnavailable else NotFound)
      else if Transient(e) then Err(UpstreamUnavailable)
      else if r.status == 403 then Err(CredentialUnavailable)
      else Err(UpstreamUnavailable)
  }

  function Backoff(attempt: nat): real { if attempt == 0 then 0.25 else 0.75 }

  /** How long to sleep before the next attempt. */
  function Delay(e: Exchange, attempt: nat): real {
    if e.Received? && e.response.retryAfter.Seconds? then
      var s := e.response.retryAfter.value;
      if s < 0.0 then 0.0 else if s > 5.0 then 5.0 else s
    else Backoff(attempt)
  }

  function StatusesOf(exchanges: seq<Exchange>): seq<int> {
    if exchanges == [] then []
    else
      var last := exchanges[|exchanges| - 1];
      StatusesOf(exchanges[..|exchanges| - 1]) + if last.Received? then [last.response.status] else []
  }

  function DelaysOf(exchanges: seq<Exchange>): seq<real> {
    if exchanges == [] then []
    else DelaysOf(exchanges[..|exchanges| - 1]) + [Delay(exchanges[|exchanges| - 1], |exchanges| - 1)]
  }

  /** How many of the exchanges offered by the wire a read uses. */
  function Attempts(wire: seq<Exchange>): (n: nat)
    requires |wire| >= MAX_ATTEMPTS
    ensures 1 <= n <= MAX_ATTEMPTS
    ensures forall k :: 0 <= k < n - 1 ==> Transient(wire[k])
    ensures n < MAX_ATTEMPTS ==> !Transient(wire[n - 1])
  {
    if !Transient(wire[0]) then 1 else if !Transient(wire[1]) then 2 else 3
  }

  class Session {
    var statuses: seq<int>
    var slept: seq<real>

    constructor ()
      ensures statuses == [] && slept == []
    {
      statuses, slept := [], [];
    }

    /**
     A read, against what the wire would answer to each attempt. Only transient failures are retried,
     the statuses seen are recorded in order, and the sleeps lie between attempts.
    */
    method Get(wire: seq<Exchange>, wanted: Body, notFoundIsCredential: bool) returns (r: Result<Body, Code>)
      requires |wire| >= MAX_ATTEMPTS
      modifies this
      ensures var n := Attempts(wire);
              && r == Settled(wire[n - 1], wanted, notFoundIsCredential)
              && statuses == old(statuses) + StatusesOf(wire[..n])
              && slept == old(slept) + DelaysOf(wire[..n - 1])
    {
      hide Delay;
      var attempt := 0;
      while attempt < MAX_ATTEMPTS
        invariant attempt < MAX_ATTEMPTS
        invariant forall k :: 0 <= k < attempt ==> Transient(wire[k])
        invariant statuses == old(statuses) + StatusesOf(wire[..attempt])
        invariant slept == old(slept) + DelaysOf(wire[..attempt])
      {
        var e := wire[attempt];
        assert wire[..attempt + 1][..attempt] == wire[..attempt];
        if e.Received? { statuses := statuses + [e.response.status]; }
        if e.Received? {
          var response := e.response;
          if IsOk(response.status) {
            return if response.body == wanted then Ok(response.body) else Err(UpstreamUnavailable);
          }
          if response.status == 401 { return Err(CredentialUnavailable); }
          if response.status == 404 { return Err(if notFoundIsCredential then CredentialUnavailable else NotFound); }
          if response.status < 500 && !RateLimited(response) {
            return Err(if response.status == 403 then CredentialUnavailable else UpstreamUnavailable);
          }
        }
        if attempt == MAX_ATTEMPTS - 1 { return Err(UpstreamUnavailable); }
        slept := slept + [Delay(e, attempt)];
        attempt := attempt + 1;
      }
    }

    /** A mutation: one exchange, whatever comes of it. */
    method Send(e: Exchange, handled: set<int>) returns (r: Result<int, Code>)
      modifies this
      ensures statuses == old(statuses) + StatusesOf([e]) && slept == old(slept)
      ensures r == if e.Broken? then Err(UpstreamUnavailable)
                   else if 200 <= e.response.status < 300 || e.response.status in handled then
                     (if e.response.body == JsonObject then Ok(e.response.status) else Err(UpstreamUnavailable))
                   else if e.response.status in {401, 403} then Err(CredentialUnavailable)
                   else if e.response.status == 404 then Err(NotFound)
                   else Err(UpstreamUnavailable)
    {
      assert [e][..0] == [];
      if e.Broken? { return Err(UpstreamUnavailable); }
      var status := e.response.status;
      statuses := statuses + [status];
      if IsOk(status) || status in handled {
        return if e.response.body == JsonObject then Ok(status) else Err(UpstreamUnavailable);
      }
      if status == 401 || status == 403 { return Err(CredentialUnavailable); }
      if status == 404 { return Err(NotFound); }
      r := Err(UpstreamUnavailable);
    }
  }

  /** GitHub is down, or asks the caller to slow down. */
  predicate Busy(e: Exchange) {
    || e.Broken? || e.response.status >= 500 || e.response.status == 429
    || (e.response.status == 403 && (e.response.retryAfter.Unusable? || e.response.retryAfter.Seconds?
                                     || e.response.remainingIsZero || e.response.textSaysLimit))
  }

  /** Attempt `n` is the first, among those allowed, that does not find GitHub busy. */
  ghost predicate FirstHeard(wire: seq<Exchange>, n: nat) {
    n < 3 && n < |wire| && !Busy(wire[n]) && forall k :: 0 <= k < n ==> Busy(wire[k])
  }

  lemma BusyIsTransient(e: Exchange)
    ensures Busy(e) <==> Transient(e)
  {
  }

  /** A read comes out as the first attempt that does not find GitHub busy, by its status, and fails when three do. */
  lemma ReadOutcome(wire: seq<Exchange>, wanted: Body, notFoundIsCredential: bool)
    requires |wire| >= MAX_ATTEMPTS
    ensures var r := Settled(wire[Attempts(wire) - 1], wanted, notFoundIsCredential);
            && ((forall n: nat :: !FirstHeard(wire, n)) ==> r == Err(UpstreamUnavailable))
            && (forall n: nat :: FirstHeard(wire, n) ==>
                  n == Attempts(wire) - 1 &&
                  var status := wire[n].response.status;
                  && (200 <= status < 300 ==> r == if wire[n].response.body == wanted then Ok(wanted) else Err(UpstreamUnavailable))
                  && (status == 401 || status == 403 ==> r == Err(CredentialUnavailable))
                  && (status == 404 ==> r == Err(if notFoundIsCredential then CredentialUnavailable else NotFound))
                  && (!(200 <= status < 300) && status !in {401, 403, 404} ==> r == Err(UpstreamUnavailable)))
  {
    hide Busy, Transient;
    forall k | 0 <= k < |wire| ensures Busy(wire[k]) <==> Transient(wire[k]) { BusyIsTransient(wire[k]); }
    var n := Attempts(wire) - 1;
    forall m: nat | FirstHeard(wire, m) ensures m == n {
      assert !Transient(wire[m]) && (Transient(wire[n]) <==> Busy(wire[n]));
    }
    if Transient(wire[n]) {
      BusyFails(wire[n], wanted, notFoundIsCredential);
    } else {
      assert FirstHeard(wire, n);
      HeardIsSettled(wire[n], wanted, notFoundIsCredential);
    }
  }

  lemma HeardIsSettled(e: Exchange, wanted: Body, notFoundIsCredential: bool)
    requires !Busy(e)
    ensures var r, status := Settled(e, wanted, notFoundIsCredential), e.response.status;
            && (200 <= status < 300 ==> r == if e.response.body == wanted then Ok(wanted) else Err(UpstreamUnavailable))
            && (status == 401 || status == 403 ==> r == Err(CredentialUnavailable))
            && (status == 404 ==> r == Err(if notFoundIsCredential then CredentialUnavailable else NotFound))
            && (!(200 <= status < 300) && status !in {401, 403, 404} ==> r == Err(UpstreamUnavailable))
  {
  }

  lemma BusyFails(e: Exchange, wanted: Body, notFoundIsCredential: bool)
    requires Busy(e)
    ensures Settled(e, wanted, notFoundIsCredential) == Err(UpstreamUnavailable)
  {
  }

  /** What GitHub asks for in Retry-After is slept, cut to between zero and five seconds; otherwise 0.25 and then 0.75 seconds. */
  lemma {:induction false} SleepsAreBounded(exchanges: seq<Exchange>, k: nat)
    requires k < |exchanges|
    ensures |DelaysOf(exchanges)| == |exchanges| && 0.0 <= DelaysOf(exchanges)[k] <= 5.0
    ensures var e, slept := exchanges[k], DelaysOf(exchanges)[k];
            if e.Received? && e.response.retryAfter.Seconds? then
              var asked := e.response.retryAfter.value;
              (0.0 <= asked <= 5.0 ==> slept == asked) && (asked < 0.0 ==> slept == 0.0) && (asked > 5.0 ==> slept == 5.0)
            else slept == if k == 0 then 0.25 else 0.75
    decreases |exchanges|
  {
    if |exchanges| > 1 {
      var before := exchanges[..|exchanges| - 1];
      SleepsAreBounded(before, if k < |before| then k else 0);
    }
  }
}
