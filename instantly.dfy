/**
 * The resilient Instantly.ai API client: client-side rate limiting, honouring
 * Retry-After, exponential backoff with jitter, the retry loop around one HTTP
 * request, extraction of the item list from a response and offset/limit
 * pagination.
 *
 * Time is a virtual clock in integer milliseconds that only sleeping advances;
 * the HTTP exchange of each attempt and the random jitter of each backoff are
 * inputs.
 */
module Instantly {
  import opened Wrappers

  // ---------------------------------------------------------------------
  // JSON values and what one attempt can observe
  // ---------------------------------------------------------------------

  /**
   * A decoded JSON document. An object keeps its members in `fields` and
   * their names, in document order, in `keys`: the order in which iterating
   * the decoded `dict` yields them. A decoded object names each member once.
   */
  datatype Json =
    | JNull
    | JBool(b: bool)
    | JNum(n: int)
    | JStr(s: string)
    | JArr(items: seq<Json>)
    | JObj(fields: map<string, Json>, keys: seq<string>)

  /** Python truthiness of a decoded value (`not items`). */
  predicate Truthy(j: Json) {
    match j
    case JNull => false
    case JBool(b) => b
    case JNum(n) => n != 0
    case JStr(s) => s != []
    case JArr(xs) => xs != []
    case JObj(_, names) => names != []
  }

  /**
   * What JSON decoding guarantees of an object: `keys` names every member of
   * `fields` exactly once. Inputs are not required to satisfy it; where they
   * do, an object's truthiness is that of its members.
   */
  ghost predicate KeysAgree(j: Json) {
    j.JObj? ==>
      && (forall i, k :: 0 <= i < k < |j.keys| ==> j.keys[i] != j.keys[k])
      && (forall name :: name in j.fields <==> name in j.keys)
  }

  /** A decoded object is truthy exactly when it has a member. */
  lemma TruthyObject(j: Json)
    requires j.JObj? && KeysAgree(j)
    ensures Truthy(j) <==> j.fields != map[]
  {
    if j.keys != [] {
      assert j.keys[0] in j.fields;
    }
    if j.fields != map[] {
      var name :| name in j.fields;
      assert name in j.keys;
    }
  }

  /**
   * What `for x in v` iterates: a list's items, a string's characters (each a
   * one-character string), an object's member names; `None` where Python
   * raises `TypeError` because the value is not iterable.
   */
  function Iterated(v: Json): (r: Option<seq<Json>>)
    ensures r.None? <==> v.JNull? || v.JBool? || v.JNum?
    ensures r.Some? ==> (r.value == [] <==> !Truthy(v))
    ensures v.JArr? ==> r == Some(v.items)
    ensures v.JStr? ==> |r.value| == |v.s| && forall i :: 0 <= i < |v.s| ==> r.value[i] == JStr([v.s[i]])
    ensures v.JObj? ==> |r.value| == |v.keys| && forall i :: 0 <= i < |v.keys| ==> r.value[i] == JStr(v.keys[i])
  {
    match v
    case JArr(xs) => Some(xs)
    case JStr(str) => Some(seq(|str|, i requires 0 <= i < |str| => JStr([str[i]])))
    case JObj(_, names) => Some(seq(|names|, i requires 0 <= i < |names| => JStr(names[i])))
    case _ => None
  }

  /** The Retry-After header as `_handle_retry_after` sees it. */
  datatype RetryAfter =
    | NoRetryAfter       // header absent or empty
    | Seconds(n: int)    // `int(value)` succeeds
    | NotSeconds         // anything else, such as an HTTP date

  /** What the HTTP session returns for one attempt. */
  datatype Exchange =
    | Reply(status: int, retryAfter: RetryAfter, body: Option<Json>)  // body None: not decodable as JSON
    | Timeout
    | ConnectionError

  /** The failures remembered as `last_exception`. */
  datatype NetFailure = TimedOut | ConnectionFailed | UndecodableBody

  /** `InstantlyAPIError`: with a status and payload, or after exhausting the retries. */
  datatype ApiError =
    | HttpStatus(status: int, payload: Option<Json>)
    | RetriesExhausted(maxRetries: int, last: Option<NetFailure>)

  /** What `_request` returns or raises. */
  datatype RequestResult =
    | Ok(data: Json)
    | ApiFailure(error: ApiError)
    | UnsupportedMethod(verb: string)   // the unwrapped `ValueError`

  const DefaultMaxRetries := 3
  const DefaultPageSize := 100
  const MinRequestIntervalMs := 200
  const BackoffBaseMs := 500
  const BackoffCapMs := 10000
  const MaxJitterMs := 250
  const DefaultRetryAfterMs := 5000

  /** `RETRYABLE_STATUS_CODES`. */
  predicate Retryable(status: int) {
    status in {429, 500, 502, 503, 504}
  }

  /** `raise_for_status` raises for client and server errors. */
  predicate ErrorStatus(status: int) {
    400 <= status < 600
  }

  /** Every retryable status is an error status, so a retryable final attempt raises. */
  lemma RetryableIsError(status: int)
    ensures Retryable(status) ==> ErrorStatus(status)
  {
  }

  // ---------------------------------------------------------------------
  // The two timestamps and the clock
  // ---------------------------------------------------------------------

  /** The virtual clock and the client's two timestamps, in milliseconds. */
  datatype Clock = Clock(now: int, lastRequest: int, backoffUntil: int)

  function Max(a: int, b: int): int {
    if a >= b then a else b
  }

  /** `_rate_limit`: wait out any backoff, then keep 200 ms between requests. */
  function AfterRateLimit(c: Clock): (d: Clock)
    ensures d.now == Max(Max(c.now, c.backoffUntil), c.lastRequest + MinRequestIntervalMs)
    ensures d.lastRequest == d.now && d.backoffUntil == c.backoffUntil
  {
    var woke := if c.now < c.backoffUntil then c.backoffUntil else c.now;
    var elapsed := woke - c.lastRequest;
    var ready := if elapsed < MinRequestIntervalMs then woke + (MinRequestIntervalMs - elapsed) else woke;
    Clock(ready, ready, c.backoffUntil)
  }

  /** `_handle_retry_after`: only the backoff deadline can change. */
  function AfterRetryAfter(c: Clock, h: RetryAfter): (d: Clock)
    ensures d.now == c.now && d.lastRequest == c.lastRequest
    ensures h == NoRetryAfter ==> d == c
    ensures h.Seconds? ==> d.backoffUntil == c.now + 1000 * h.n
    ensures h == NotSeconds ==> d.backoffUntil == c.now + DefaultRetryAfterMs
  {
    match h
    case NoRetryAfter => c
    case Seconds(n) => c.(backoffUntil := c.now + n * 1000)
    case NotSeconds => c.(backoffUntil := c.now + DefaultRetryAfterMs)
  }

  function Pow2(n: nat): (p: nat)
    ensures p >= 1
  {
    if n == 0 then 1 else 2 * Pow2(n - 1)
  }

  /** The deterministic part of `_sleep_backoff`: `min(cap, base * 2**attempt)`. */
  function BackoffDelay(attempt: nat): (d: int)
    ensures BackoffBaseMs <= d <= BackoffCapMs
    ensures attempt <= 4 ==> d == BackoffBaseMs * Pow2(attempt)
    ensures attempt >= 5 ==> d == BackoffCapMs
  {
    if attempt >= 5 then
      PowMonotone(5, attempt);
      BackoffCapMs
    else
      var raw := BackoffBaseMs * Pow2(attempt);
      assert raw <= 8000 by { PowMonotone(attempt, 4); }
      if raw < BackoffCapMs then raw else BackoffCapMs
  }

  lemma {:induction false} PowMonotone(m: nat, n: nat)
    requires m <= n
    ensures Pow2(m) <= Pow2(n)
    decreases n - m
  {
    if m < n {
      PowMonotone(m + 1, n);
    }
  }

  /** Later attempts never wait less. */
  lemma BackoffMonotone(i: nat, j: nat)
    requires i <= j
    ensures BackoffDelay(i) <= BackoffDelay(j)
  {
    if j <= 4 {
      PowMonotone(i, j);
    }
  }

  /** `_sleep_backoff`: sleep the backoff delay plus the jitter drawn for it. */
  function AfterBackoff(c: Clock, attempt: nat, jitter: int): (d: Clock)
    requires 0 <= jitter <= MaxJitterMs
    ensures c.now + BackoffBaseMs <= d.now <= c.now + BackoffCapMs + MaxJitterMs
    ensures d.lastRequest == c.lastRequest && d.backoffUntil == c.backoffUntil
  {
    c.(now := c.now + BackoffDelay(attempt) + jitter)
  }

  // ---------------------------------------------------------------------
  // The retry loop of `_request`, as a specification
  // ---------------------------------------------------------------------

  /** What happens during a request: an attempt at a time, or a backoff sleep. */
  datatype Event =
    | Attempt(index: nat, at: int)      // `_rate_limit` released the attempt at time `at`
    | Backoff(index: nat, delay: int)   // sleep after attempt `index`

  /** A finished request: its result, the clock afterwards and what happened. */
  datatype Run = Run(outcome: RequestResult, clock: Clock, events: seq<Event>)

  /** Inputs the loop needs: one exchange and one jitter value per attempt. */
  predicate Scripted(exchanges: seq<Exchange>, jitters: seq<int>, maxRetries: int) {
    && |exchanges| >= maxRetries && |jitters| >= maxRetries
    && forall i :: 0 <= i < |jitters| ==> 0 <= jitters[i] <= MaxJitterMs
  }

  /** The clock after the backoff that follows attempt `k`, unless it is the final one. */
  function SleepAfter(c: Clock, k: nat, maxRetries: int, jitters: seq<int>): Clock
    requires k < |jitters| && 0 <= jitters[k] <= MaxJitterMs
  {
    if k < maxRetries - 1 then AfterBackoff(c, k, jitters[k]) else c
  }

  /** The backoff event after attempt `k`, unless it is the final one. */
  function BackoffEvents(c: Clock, k: nat, maxRetries: int, jitters: seq<int>): seq<Event>
    requires k < |jitters| && 0 <= jitters[k] <= MaxJitterMs
  {
    if k < maxRetries - 1 then [Backoff(k, SleepAfter(c, k, maxRetries, jitters).now - c.now)] else []
  }

  function Prepend(evs: seq<Event>, r: Run): Run {
    r.(events := evs + r.events)
  }

  /** The failure an exchange leaves in `last_exception`, if it leaves one. */
  function FailureOf(x: Exchange): Option<NetFailure> {
    match x
    case Timeout => Some(TimedOut)
    case ConnectionError => Some(ConnectionFailed)
    case Reply(s, _, body) => if !ErrorStatus(s) && body.None? then Some(UndecodableBody) else None
  }

  /** `last_exception` after an attempt that did not end the request. */
  function LastAfter(x: Exchange, last: Option<NetFailure>): Option<NetFailure> {
    if FailureOf(x).Some? then FailureOf(x) else last
  }

  /**
   * Attempt `k` ends the request with its reply: an error status that is not
   * retried (any error status on the final attempt), or a decodable body.
   */
  predicate Stops(x: Exchange, k: nat, maxRetries: int) {
    x.Reply? && !(Retryable(x.status) && k < maxRetries - 1) && (ErrorStatus(x.status) || x.body.Some?)
  }

  /** What an attempt that ends the request returns or raises. */
  function Ending(x: Exchange): RequestResult
    requires x.Reply? && (ErrorStatus(x.status) || x.body.Some?)
  {
    if ErrorStatus(x.status) then ApiFailure(HttpStatus(x.status, x.body)) else Ok(x.body.value)
  }

  /** The clock after the exchange: a retryable reply records its Retry-After. */
  function AfterExchange(c: Clock, x: Exchange): Clock {
    if x.Reply? && Retryable(x.status) then AfterRetryAfter(c, x.retryAfter) else c
  }

  predicate Supported(verb: string) {
    verb == "GET" || verb == "POST"
  }

  /**
   * Attempts `k`, `k + 1`, ... of `_request(verb, ...)` from clock `c`, with
   * `last` the last network failure so far.
   */
  function Attempts(verb: string, exchanges: seq<Exchange>, jitters: seq<int>, maxRetries: int,
                    k: nat, c: Clock, last: Option<NetFailure>): Run
    requires Scripted(exchanges, jitters, maxRetries)
    decreases maxRetries - k
  {
    if k >= maxRetries then Run(ApiFailure(RetriesExhausted(maxRetries, last)), c, [])
    else
      var c1 := AfterRateLimit(c);
      var ev := Attempt(k, c1.now);
      if !Supported(verb) then Run(UnsupportedMethod(verb), c1, [ev])
      else
        var x := exchanges[k];
        var c2 := AfterExchange(c1, x);
        if Stops(x, k, maxRetries) then Run(Ending(x), c2, [ev])
        else
          var c3 := SleepAfter(c2, k, maxRetries, jitters);
          var bevs := BackoffEvents(c2, k, maxRetries, jitters);
          Prepend([ev] + bevs, Attempts(verb, exchanges, jitters, maxRetries, k + 1, c3, LastAfter(x, last)))
  }

  /** A whole `_request` call. */
  function RequestSpec(verb: string, exchanges: seq<Exchange>, jitters: seq<int>, maxRetries: int, c: Clock): Run
    requires Scripted(exchanges, jitters, maxRetries)
  {
    Attempts(verb, exchanges, jitters, maxRetries, 0, c, None)
  }

  function NumAttempts(evs: seq<Event>): (n: nat)
    ensures n <= |evs|
  {
    if evs == [] then 0 else (if evs[0].Attempt? then 1 else 0) + NumAttempts(evs[1..])
  }

  lemma {:induction false} NumAttemptsAppend(a: seq<Event>, b: seq<Event>)
    ensures NumAttempts(a + b) == NumAttempts(a) + NumAttempts(b)
  {
    if a == [] {
      assert a + b == b;
    } else {
      assert (a + b)[0] == a[0];
      assert (a + b)[1..] == a[1..] + b;
      NumAttemptsAppend(a[1..], b);
    }
  }

  /**
   * Attempts and backoffs alternate with consecutive indices from `k` and
   * below `maxRetries`, and the run never ends with a backoff.
   */
  predicate Alternates(evs: seq<Event>, k: nat, maxRetries: int) {
    && (evs != [] ==> evs[0].Attempt? && evs[0].index == k && evs[|evs| - 1].Attempt?)
    && (forall i :: 0 <= i < |evs| && evs[i].Attempt? ==> evs[i].index < maxRetries)
    && (forall i :: 0 <= i < |evs| - 1 && evs[i].Attempt? ==> evs[i + 1].Backoff? && evs[i + 1].index == evs[i].index)
    && (forall i :: 0 <= i < |evs| - 1 && evs[i].Backoff? ==> evs[i + 1].Attempt? && evs[i + 1].index == evs[i].index + 1)
  }

  /** An attempt and its backoff before an alternating run from the next attempt still alternate. */
  lemma AlternatesCons(a: Event, b: Event, rest: seq<Event>, k: nat, maxRetries: int)
    requires a.Attempt? && a.index == k && k < maxRetries
    requires b.Backoff? && b.index == k
    requires rest != [] && Alternates(rest, k + 1, maxRetries)
    ensures Alternates([a, b] + rest, k, maxRetries)
  {
    var evs := [a, b] + rest;
    forall i | 0 <= i < |evs| - 1 && evs[i].Attempt?
      ensures evs[i + 1].Backoff? && evs[i + 1].index == evs[i].index
    {
      if i >= 2 { assert evs[i] == rest[i - 2] && evs[i + 1] == rest[i - 1]; }
    }
    forall i | 0 <= i < |evs| - 1 && evs[i].Backoff?
      ensures evs[i + 1].Attempt? && evs[i + 1].index == evs[i].index + 1
    {
      if i >= 2 { assert evs[i] == rest[i - 2] && evs[i + 1] == rest[i - 1]; }
    }
    forall i | 0 <= i < |evs| && evs[i].Attempt? ensures evs[i].index < maxRetries {
      if i >= 2 { assert evs[i] == rest[i - 2]; }
    }
    assert evs[|evs| - 1] == rest[|rest| - 1];
  }

  /**
   * A run whose attempt `k` neither raises nor ends the request: that
   * attempt, its backoff unless it was the final one, then the run from
   * attempt `k + 1` after the sleep, which decides the outcome.
   */
  lemma AttemptsStep(verb: string, exchanges: seq<Exchange>, jitters: seq<int>, maxRetries: int,
                     k: nat, c: Clock, last: Option<NetFailure>) returns (c2: Clock, c3: Clock, rest: Run)
    requires Scripted(exchanges, jitters, maxRetries)
    requires k < maxRetries && Supported(verb) && !Stops(exchanges[k], k, maxRetries)
    ensures c2 == AfterExchange(AfterRateLimit(c), exchanges[k])
    ensures c3 == SleepAfter(c2, k, maxRetries, jitters)
    ensures k + 1 < maxRetries ==> BackoffEvents(c2, k, maxRetries, jitters) == [Backoff(k, c3.now - c2.now)]
    ensures k + 1 >= maxRetries ==> BackoffEvents(c2, k, maxRetries, jitters) == [] && rest.events == []
    ensures rest == Attempts(verb, exchanges, jitters, maxRetries, k + 1, c3, LastAfter(exchanges[k], last))
    ensures var r := Attempts(verb, exchanges, jitters, maxRetries, k, c, last);
      && r.outcome == rest.outcome
      && r.events == [Attempt(k, AfterRateLimit(c).now)] + BackoffEvents(c2, k, maxRetries, jitters) + rest.events
  {
    c2 := AfterExchange(AfterRateLimit(c), exchanges[k]);
    c3 := SleepAfter(c2, k, maxRetries, jitters);
    rest := Attempts(verb, exchanges, jitters, maxRetries, k + 1, c3, LastAfter(exchanges[k], last));
  }

  /** The events of every run from attempt `k` alternate between attempts and backoffs. */
  lemma {:induction false} AttemptsShape(verb: string, exchanges: seq<Exchange>, jitters: seq<int>, maxRetries: int,
                                         k: nat, c: Clock, last: Option<NetFailure>)
    requires Scripted(exchanges, jitters, maxRetries)
    ensures Alternates(Attempts(verb, exchanges, jitters, maxRetries, k, c, last).events, k, maxRetries)
    decreases maxRetries - k
  {
    var evs := Attempts(verb, exchanges, jitters, maxRetries, k, c, last).events;
    AttemptsStart(verb, exchanges, jitters, maxRetries, k, c, last);
    if |evs| > 1 {
      AttemptsContinue(verb, exchanges, jitters, maxRetries, k, c, last);
      var c2 := AfterExchange(AfterRateLimit(c), exchanges[k]);
      var c3 := SleepAfter(c2, k, maxRetries, jitters);
      var next := LastAfter(exchanges[k], last);
      var rest := Attempts(verb, exchanges, jitters, maxRetries, k + 1, c3, next).events;
      AttemptsStart(verb, exchanges, jitters, maxRetries, k + 1, c3, next);
      AttemptsShape(verb, exchanges, jitters, maxRetries, k + 1, c3, next);
      AlternatesCons(evs[0], evs[1], rest, k, maxRetries);
    }
  }

  /** A run from attempt `k` makes at least one and at most `maxRetries - k` attempts when any are left. */
  lemma {:induction false} AttemptsCount(verb: string, exchanges: seq<Exchange>, jitters: seq<int>, maxRetries: int,
                                         k: nat, c: Clock, last: Option<NetFailure>)
    requires Scripted(exchanges, jitters, maxRetries)
    ensures var n := NumAttempts(Attempts(verb, exchanges, jitters, maxRetries, k, c, last).events);
      (k < maxRetries ==> 1 <= n <= maxRetries - k) && (k >= maxRetries ==> n == 0)
    decreases maxRetries - k
  {
    if k < maxRetries && Supported(verb) && !Stops(exchanges[k], k, maxRetries) {
      var ev := Attempt(k, AfterRateLimit(c).now);
      var c2, c3, rest := AttemptsStep(verb, exchanges, jitters, maxRetries, k, c, last);
      var bevs := BackoffEvents(c2, k, maxRetries, jitters);
      AttemptsCount(verb, exchanges, jitters, maxRetries, k + 1, c3, LastAfter(exchanges[k], last));
      NumAttemptsAppend([ev] + bevs, rest.events);
      NumAttemptsAppend([ev], bevs);
      assert NumAttempts([ev]) == 1;
      assert NumAttempts(bevs) == 0 by {
        if bevs != [] {
          assert bevs == [Backoff(k, c3.now - c2.now)];
        }
      }
    } else if k < maxRetries {
      assert Attempts(verb, exchanges, jitters, maxRetries, k, c, last).events == [Attempt(k, AfterRateLimit(c).now)];
    }
  }

  /** `_request` makes at most `max_retries` attempts, none at all when `max_retries <= 0`. */
  lemma AttemptBound(verb: string, exchanges: seq<Exchange>, jitters: seq<int>, maxRetries: int, c: Clock)
    requires Scripted(exchanges, jitters, maxRetries)
    ensures var r := RequestSpec(verb, exchanges, jitters, maxRetries, c);
      && NumAttempts(r.events) <= Max(0, maxRetries)
      && (maxRetries <= 0 ==> r == Run(ApiFailure(RetriesExhausted(maxRetries, None)), c, []))
      && Alternates(r.events, 0, maxRetries)
  {
    AttemptsShape(verb, exchanges, jitters, maxRetries, 0, c, None);
    AttemptsCount(verb, exchanges, jitters, maxRetries, 0, c, None);
  }

  /** A run from attempt `k` is empty exactly when no attempt is left, and otherwise starts with attempt `k`. */
  lemma AttemptsStart(verb: string, exchanges: seq<Exchange>, jitters: seq<int>, maxRetries: int,
                      k: nat, c: Clock, last: Option<NetFailure>)
    requires Scripted(exchanges, jitters, maxRetries)
    ensures var r := Attempts(verb, exchanges, jitters, maxRetries, k, c, last);
      && (k >= maxRetries <==> r.events == [])
      && (k < maxRetries ==> r.events[0] == Attempt(k, AfterRateLimit(c).now))
  {
  }

  /** A run that ends with a reply ends on its last attempt, whose reply stops the retries. */
  predicate EndsOnReply(r: Run, exchanges: seq<Exchange>, maxRetries: int) {
    r.outcome.Ok? || (r.outcome.ApiFailure? && r.outcome.error.HttpStatus?) ==>
      && r.events != [] && r.events[|r.events| - 1].Attempt?
      && var j := r.events[|r.events| - 1].index;
         j < maxRetries && j < |exchanges| && Stops(exchanges[j], j, maxRetries) && r.outcome == Ending(exchanges[j])
  }

  /** Appending a non-empty sequence makes its last element the last one. */
  lemma LastOfAppend<T>(a: seq<T>, b: seq<T>)
    requires b != []
    ensures (a + b)[|a + b| - 1] == b[|b| - 1]
  {
  }

  /** Every run from attempt `k` that ends with a reply ends on its last attempt, whose reply stops the retries. */
  lemma {:induction false} AttemptsEndOnReply(verb: string, exchanges: seq<Exchange>, jitters: seq<int>, maxRetries: int,
                                              k: nat, c: Clock, last: Option<NetFailure>)
    requires Scripted(exchanges, jitters, maxRetries)
    ensures EndsOnReply(Attempts(verb, exchanges, jitters, maxRetries, k, c, last), exchanges, maxRetries)
    decreases maxRetries - k
  {
    if k < maxRetries && Supported(verb) && !Stops(exchanges[k], k, maxRetries) {
      var r := Attempts(verb, exchanges, jitters, maxRetries, k, c, last);
      var c2, c3, rest := AttemptsStep(verb, exchanges, jitters, maxRetries, k, c, last);
      AttemptsEndOnReply(verb, exchanges, jitters, maxRetries, k + 1, c3, LastAfter(exchanges[k], last));
      if rest.events != [] {
        LastOfAppend([Attempt(k, AfterRateLimit(c).now)] + BackoffEvents(c2, k, maxRetries, jitters), rest.events);
      }
    }
  }

  /** A run from attempt `k` that runs out of retries names `maxRetries` and keeps the final attempt's network failure. */
  lemma {:induction false} AttemptsExhausted(verb: string, exchanges: seq<Exchange>, jitters: seq<int>, maxRetries: int,
                                             k: nat, c: Clock, last: Option<NetFailure>)
    requires Scripted(exchanges, jitters, maxRetries)
    ensures var r := Attempts(verb, exchanges, jitters, maxRetries, k, c, last);
      r.outcome.ApiFailure? && r.outcome.error.RetriesExhausted? ==>
        && r.outcome.error.maxRetries == maxRetries
        && (k < maxRetries ==> r.outcome.error.last == FailureOf(exchanges[maxRetries - 1]) && r.outcome.error.last.Some?)
        && (k >= maxRetries ==> r.outcome.error.last == last)
    decreases maxRetries - k
  {
    if k < maxRetries && Supported(verb) && !Stops(exchanges[k], k, maxRetries) {
      var c2, c3, rest := AttemptsStep(verb, exchanges, jitters, maxRetries, k, c, last);
      AttemptsExhausted(verb, exchanges, jitters, maxRetries, k + 1, c3, LastAfter(exchanges[k], last));
      if k + 1 >= maxRetries {
        assert FailureOf(exchanges[k]).Some?;
      }
    }
  }

  /** A run from attempt `k` raises for an unsupported method only at its first attempt, and only with one left. */
  lemma {:induction false} AttemptsUnsupported(verb: string, exchanges: seq<Exchange>, jitters: seq<int>, maxRetries: int,
                                               k: nat, c: Clock, last: Option<NetFailure>)
    requires Scripted(exchanges, jitters, maxRetries)
    ensures var r := Attempts(verb, exchanges, jitters, maxRetries, k, c, last);
      r.outcome.UnsupportedMethod? ==> !Supported(verb) && k < maxRetries && |r.events| == 1
    decreases maxRetries - k
  {
    if k < maxRetries && Supported(verb) && !Stops(exchanges[k], k, maxRetries) {
      var c2, c3, rest := AttemptsStep(verb, exchanges, jitters, maxRetries, k, c, last);
      AttemptsUnsupported(verb, exchanges, jitters, maxRetries, k + 1, c3, LastAfter(exchanges[k], last));
    }
  }

  /**
   * `_request` as the caller sees it: an `InstantlyAPIError` with a status
   * carries the status and payload of the last attempt's reply, which is an
   * error status, and a retryable one only on the final attempt; a result is
   * the decoded body of a non-error reply; giving up after the retries names
   * `max_retries` and the final attempt's network failure; an unsupported
   * method raises on the first attempt.
   */
  lemma RequestOutcome(verb: string, exchanges: seq<Exchange>, jitters: seq<int>, maxRetries: int, c: Clock)
    requires Scripted(exchanges, jitters, maxRetries)
    ensures var r := RequestSpec(verb, exchanges, jitters, maxRetries, c);
      && (r.outcome.ApiFailure? && r.outcome.error.HttpStatus? ==>
            && r.events != [] && r.events[|r.events| - 1].Attempt?
            && var j := r.events[|r.events| - 1].index;
            && 0 <= j < maxRetries
            && exchanges[j].Reply? && exchanges[j].status == r.outcome.error.status && exchanges[j].body == r.outcome.error.payload
            && ErrorStatus(r.outcome.error.status)
            && (Retryable(r.outcome.error.status) ==> j == maxRetries - 1))
      && (r.outcome.Ok? ==>
            && r.events != [] && r.events[|r.events| - 1].Attempt?
            && var j := r.events[|r.events| - 1].index;
            && 0 <= j < maxRetries
            && exchanges[j].Reply? && !ErrorStatus(exchanges[j].status) && exchanges[j].body == Some(r.outcome.data))
      && (r.outcome.ApiFailure? && r.outcome.error.RetriesExhausted? ==>
            && r.outcome.error.maxRetries == maxRetries
            && (maxRetries > 0 ==> r.outcome.error.last == FailureOf(exchanges[maxRetries - 1]) && r.outcome.error.last.Some?)
            && (maxRetries <= 0 ==> r.outcome.error.last.None? && r.events == []))
      && (r.outcome.UnsupportedMethod? ==> !Supported(verb) && maxRetries > 0 && r.events == [Attempt(0, AfterRateLimit(c).now)])
  {
    AttemptsEndOnReply(verb, exchanges, jitters, maxRetries, 0, c, None);
    AttemptsExhausted(verb, exchanges, jitters, maxRetries, 0, c, None);
    AttemptsUnsupported(verb, exchanges, jitters, maxRetries, 0, c, None);
    AttemptsStart(verb, exchanges, jitters, maxRetries, 0, c, None);
  }

  /** A run with a second attempt starts with attempt `k`, its backoff, and the run from attempt `k + 1`. */
  lemma {:induction false} AttemptsContinue(verb: string, exchanges: seq<Exchange>, jitters: seq<int>, maxRetries: int,
                                            k: nat, c: Clock, last: Option<NetFailure>)
    requires Scripted(exchanges, jitters, maxRetries)
    requires |Attempts(verb, exchanges, jitters, maxRetries, k, c, last).events| > 1
    ensures k < maxRetries - 1 && Supported(verb) && !Stops(exchanges[k], k, maxRetries)
    ensures var c2 := AfterExchange(AfterRateLimit(c), exchanges[k]);
      var c3 := SleepAfter(c2, k, maxRetries, jitters);
      Attempts(verb, exchanges, jitters, maxRetries, k, c, last).events
        == [Attempt(k, AfterRateLimit(c).now), Backoff(k, c3.now - c2.now)]
           + Attempts(verb, exchanges, jitters, maxRetries, k + 1, c3, LastAfter(exchanges[k], last)).events
  {
    var x := exchanges[k];
    var c2 := AfterExchange(AfterRateLimit(c), x);
    var rest := Attempts(verb, exchanges, jitters, maxRetries, k + 1, SleepAfter(c2, k, maxRetries, jitters), LastAfter(x, last));
    AttemptsStart(verb, exchanges, jitters, maxRetries, k + 1, SleepAfter(c2, k, maxRetries, jitters), LastAfter(x, last));
  }

  /**
   * The attempt at position `i` of `evs` is followed by its backoff and the
   * next attempt, which comes at least the backoff and at least the minimum
   * request interval later, and no earlier than a `Retry-After: n` that the
   * attempt's reply announced.
   */
  predicate SpacedAt(evs: seq<Event>, exchanges: seq<Exchange>, i: nat)
    requires i + 2 < |evs| && evs[i].Attempt?
  {
    && evs[i + 1].Backoff? && evs[i + 2].Attempt?
    && evs[i + 2].at >= evs[i].at + evs[i + 1].delay
    && evs[i + 2].at >= evs[i].at + MinRequestIntervalMs
    && evs[i].index < |exchanges|
    && (var x := exchanges[evs[i].index];
        x.Reply? && Retryable(x.status) && x.retryAfter.Seconds? ==> evs[i + 2].at >= evs[i].at + 1000 * x.retryAfter.n)
  }

  /** The gap between the first two attempts of a run. */
  lemma FirstGap(verb: string, exchanges: seq<Exchange>, jitters: seq<int>, maxRetries: int,
                 k: nat, c: Clock, last: Option<NetFailure>)
    requires Scripted(exchanges, jitters, maxRetries)
    requires |Attempts(verb, exchanges, jitters, maxRetries, k, c, last).events| > 2
    ensures var evs := Attempts(verb, exchanges, jitters, maxRetries, k, c, last).events;
      evs[0] == Attempt(k, AfterRateLimit(c).now) && SpacedAt(evs, exchanges, 0)
  {
    AttemptsContinue(verb, exchanges, jitters, maxRetries, k, c, last);
    var c1 := AfterRateLimit(c);
    var c2 := AfterExchange(c1, exchanges[k]);
    var c3 := SleepAfter(c2, k, maxRetries, jitters);
    AttemptsStart(verb, exchanges, jitters, maxRetries, k + 1, c3, LastAfter(exchanges[k], last));
  }

  /** Spacing is a property of three consecutive events, wherever they sit. */
  lemma SpacedShift(evs: seq<Event>, rest: seq<Event>, exchanges: seq<Exchange>, i: nat)
    requires i >= 2 && i + 2 < |evs| && evs[2..] == rest
    requires evs[i].Attempt? && SpacedAt(rest, exchanges, i - 2)
    ensures SpacedAt(evs, exchanges, i)
  {
    assert evs[i] == rest[i - 2] && evs[i + 1] == rest[i - 1] && evs[i + 2] == rest[i];
  }

  /**
   * Consecutive attempts are spaced by at least the backoff slept between
   * them and by at least the minimum request interval; after a retryable
   * reply announcing `Retry-After: n`, the next attempt comes no earlier than
   * `n` seconds after that reply.
   */
  lemma {:induction false} AttemptsSpacing(verb: string, exchanges: seq<Exchange>, jitters: seq<int>, maxRetries: int,
                                           k: nat, c: Clock, last: Option<NetFailure>, i: nat)
    requires Scripted(exchanges, jitters, maxRetries)
    requires var evs := Attempts(verb, exchanges, jitters, maxRetries, k, c, last).events;
      i + 2 < |evs| && evs[i].Attempt?
    ensures SpacedAt(Attempts(verb, exchanges, jitters, maxRetries, k, c, last).events, exchanges, i)
    decreases maxRetries - k
  {
    if i == 0 {
      FirstGap(verb, exchanges, jitters, maxRetries, k, c, last);
    } else {
      var c3, next := AttemptsTail(verb, exchanges, jitters, maxRetries, k, c, last);
      var evs := Attempts(verb, exchanges, jitters, maxRetries, k, c, last).events;
      var rest := Attempts(verb, exchanges, jitters, maxRetries, k + 1, c3, next).events;
      assert i >= 2 && rest[i - 2] == evs[i];
      AttemptsSpacing(verb, exchanges, jitters, maxRetries, k + 1, c3, next, i - 2);
      SpacedShift(evs, rest, exchanges, i);
    }
  }

  /** A run with a second attempt continues, after its first attempt and backoff, as the run from attempt `k + 1`. */
  lemma AttemptsTail(verb: string, exchanges: seq<Exchange>, jitters: seq<int>, maxRetries: int,
                     k: nat, c: Clock, last: Option<NetFailure>) returns (c3: Clock, next: Option<NetFailure>)
    requires Scripted(exchanges, jitters, maxRetries)
    requires |Attempts(verb, exchanges, jitters, maxRetries, k, c, last).events| > 1
    ensures var evs := Attempts(verb, exchanges, jitters, maxRetries, k, c, last).events;
      && evs[1].Backoff?
      && evs[2..] == Attempts(verb, exchanges, jitters, maxRetries, k + 1, c3, next).events
  {
    AttemptsContinue(verb, exchanges, jitters, maxRetries, k, c, last);
    var c2 := AfterExchange(AfterRateLimit(c), exchanges[k]);
    c3 := SleepAfter(c2, k, maxRetries, jitters);
    next := LastAfter(exchanges[k], last);
  }

  /** When every attempt fails on the network, the request gives up with the final failure after `max_retries` attempts. */
  lemma AllNetworkFailures(verb: string, exchanges: seq<Exchange>, jitters: seq<int>, maxRetries: int, c: Clock)
    requires Scripted(exchanges, jitters, maxRetries) && maxRetries >= 1
    requires Supported(verb)
    requires forall i :: 0 <= i < maxRetries ==> exchanges[i] == Timeout || exchanges[i] == ConnectionError
    ensures var r := RequestSpec(verb, exchanges, jitters, maxRetries, c);
      && r.outcome == ApiFailure(RetriesExhausted(maxRetries, FailureOf(exchanges[maxRetries - 1])))
      && NumAttempts(r.events) == maxRetries
  {
    AllNetworkFailuresFrom(verb, exchanges, jitters, maxRetries, 0, c, None);
  }

  lemma {:induction false} AllNetworkFailuresFrom(verb: string, exchanges: seq<Exchange>, jitters: seq<int>, maxRetries: int,
                                                  k: nat, c: Clock, last: Option<NetFailure>)
    requires Scripted(exchanges, jitters, maxRetries) && k < maxRetries
    requires Supported(verb)
    requires forall i :: k <= i < maxRetries ==> exchanges[i] == Timeout || exchanges[i] == ConnectionError
    ensures var r := Attempts(verb, exchanges, jitters, maxRetries, k, c, last);
      && r.outcome == ApiFailure(RetriesExhausted(maxRetries, FailureOf(exchanges[maxRetries - 1])))
      && NumAttempts(r.events) == maxRetries - k
    decreases maxRetries - k
  {
    var ev := Attempt(k, AfterRateLimit(c).now);
    var c2, c3, rest := AttemptsStep(verb, exchanges, jitters, maxRetries, k, c, last);
    var bevs := BackoffEvents(c2, k, maxRetries, jitters);
    NumAttemptsAppend([ev] + bevs, rest.events);
    NumAttemptsAppend([ev], bevs);
    if k + 1 < maxRetries {
      AllNetworkFailuresFrom(verb, exchanges, jitters, maxRetries, k + 1, c3, LastAfter(exchanges[k], last));
    } else {
      assert bevs == [] && rest.events == [];
    }
  }

  /**
   * The first attempt `j` from `k` on whose reply stops the retries decides
   * the request: it returns or raises what that reply says, after exactly
   * the attempts `k` to `j`, so nothing scripted after `j` is ever sent.
   */
  lemma {:induction false} FirstStopDecides(verb: string, exchanges: seq<Exchange>, jitters: seq<int>, maxRetries: int,
                                            k: nat, j: nat, c: Clock, last: Option<NetFailure>)
    requires Scripted(exchanges, jitters, maxRetries)
    requires k <= j < maxRetries && Supported(verb)
    requires Stops(exchanges[j], j, maxRetries)
    requires forall i :: k <= i < j ==> !Stops(exchanges[i], i, maxRetries)
    ensures var r := Attempts(verb, exchanges, jitters, maxRetries, k, c, last);
      && r.outcome == Ending(exchanges[j])
      && NumAttempts(r.events) == j - k + 1
    decreases j - k
  {
    if k < j {
      var ev := Attempt(k, AfterRateLimit(c).now);
      var c2, c3, rest := AttemptsStep(verb, exchanges, jitters, maxRetries, k, c, last);
      var bevs := BackoffEvents(c2, k, maxRetries, jitters);
      FirstStopDecides(verb, exchanges, jitters, maxRetries, k + 1, j, c3, LastAfter(exchanges[k], last));
      NumAttemptsAppend([ev] + bevs, rest.events);
      NumAttemptsAppend([ev], bevs);
      assert NumAttempts(bevs) == 0 by {
        if bevs != [] {
          assert bevs == [Backoff(k, c3.now - c2.now)];
        }
      }
    } else {
      assert Attempts(verb, exchanges, jitters, maxRetries, k, c, last).events == [Attempt(k, AfterRateLimit(c).now)];
    }
  }

  /** A non-retryable 404 on the first attempt raises at once: one attempt, no backoff, the timeouts after it never sent. */
  lemma NotFoundStopsAtOnce(data: Option<Json>)
    ensures var r := RequestSpec("GET", [Reply(404, NoRetryAfter, data), Timeout, Timeout], [0, 0, 0],
                                 DefaultMaxRetries, Clock(1000, 0, 0));
      && r.outcome == ApiFailure(HttpStatus(404, data))
      && r.events == [Attempt(0, 1000)]
  {
  }

  /** Two 429 replies without Retry-After and then a 200: three attempts, two backoffs of 0.5 s and 1 s plus jitter. */
  lemma TwoThrottlesThenSuccess(j0: int, j1: int, data: Json)
    requires 0 <= j0 <= MaxJitterMs && 0 <= j1 <= MaxJitterMs
    ensures var r := RequestSpec("GET", [Reply(429, NoRetryAfter, None), Reply(429, NoRetryAfter, None), Reply(200, NoRetryAfter, Some(data))],
                                 [j0, j1, 0], DefaultMaxRetries, Clock(1000, 0, 0));
      && r.outcome == Ok(data)
      && r.events == [Attempt(0, 1000), Backoff(0, 500 + j0), Attempt(1, 1500 + j0), Backoff(1, 1000 + j1), Attempt(2, 2500 + j0 + j1)]
  {
    assert BackoffDelay(0) == 500;
    assert BackoffDelay(1) == 1000;
  }


  // ---------------------------------------------------------------------
  // The client object
  // ---------------------------------------------------------------------

  /** `InstantlyClient` with the virtual clock it reads and sleeps on. */
  class InstantlyClient {
    var now: int
    var lastRequestTime: int
    var backoffUntil: int
    const maxRetries: int

    function State(): Clock
      reads this
    {
      Clock(now, lastRequestTime, backoffUntil)
    }

    /** A fresh client: no request made and no backoff pending. */
    constructor (maxRetries: int, now: int)
      ensures State() == Clock(now, 0, 0) && this.maxRetries == maxRetries
    {
      this.now := now;
      lastRequestTime := 0;
      backoffUntil := 0;
      this.maxRetries := maxRetries;
    }

    /** `_rate_limit`. */
    method RateLimit()
      modifies this
      ensures State() == AfterRateLimit(old(State()))
    {
      if now < backoffUntil {
        now := backoffUntil;
      }
      var elapsed := now - lastRequestTime;
      if elapsed < MinRequestIntervalMs {
        now := now + (MinRequestIntervalMs - elapsed);
      }
      lastRequestTime := now;
    }

    /** `_sleep_backoff(attempt)` with the jitter drawn for this sleep. */
    method SleepBackoff(attempt: nat, jitter: int)
      requires 0 <= jitter <= MaxJitterMs
      modifies this
      ensures State() == AfterBackoff(old(State()), attempt, jitter)
    {
      now := now + BackoffDelay(attempt) + jitter;
    }

    /** `_handle_retry_after`. */
    method HandleRetryAfter(h: RetryAfter)
      modifies this
      ensures State() == AfterRetryAfter(old(State()), h)
    {
      match h {
        case NoRetryAfter =>
        case Seconds(n) => backoffUntil := now + n * 1000;
        case NotSeconds => backoffUntil := now + DefaultRetryAfterMs;
      }
    }

    /** `_request(verb, ...)`, with attempt `i` observing `exchanges[i]` and its backoff drawing `jitters[i]`. */
    method Request(verb: string, exchanges: seq<Exchange>, jitters: seq<int>) returns (r: RequestResult)
      requires Scripted(exchanges, jitters, maxRetries)
      modifies this
      ensures r == RequestSpec(verb, exchanges, jitters, maxRetries, old(State())).outcome
      ensures State() == RequestSpec(verb, exchanges, jitters, maxRetries, old(State())).clock
    {
      ghost var goal := RequestSpec(verb, exchanges, jitters, maxRetries, State());
      var last: Option<NetFailure> := None;
      var attempt: nat := 0;
      while attempt < maxRetries
        invariant Attempts(verb, exchanges, jitters, maxRetries, attempt, State(), last).outcome == goal.outcome
        invariant Attempts(verb, exchanges, jitters, maxRetries, attempt, State(), last).clock == goal.clock
        decreases maxRetries - attempt
      {
        RateLimit();
        if verb != "GET" && verb != "POST" {
          return UnsupportedMethod(verb);
        }
        var x := exchanges[attempt];
        if x.Reply? {
          if Retryable(x.status) {
            HandleRetryAfter(x.retryAfter);
            if attempt < maxRetries - 1 {
              SleepBackoff(attempt, jitters[attempt]);
              attempt := attempt + 1;
              continue;
            }
          }
          if ErrorStatus(x.status) {
            return ApiFailure(HttpStatus(x.status, x.body));
          }
          if x.body.Some? {
            return Ok(x.body.value);
          }
          last := Some(UndecodableBody);
        } else if x.Timeout? {
          last := Some(TimedOut);
        } else {
          last := Some(ConnectionFailed);
        }
        if attempt < maxRetries - 1 {
          SleepBackoff(attempt, jitters[attempt]);
        }
        attempt := attempt + 1;
      }
      r := ApiFailure(RetriesExhausted(maxRetries, last));
    }
  }

  // ---------------------------------------------------------------------
  // Item lists and pagination
  // ---------------------------------------------------------------------

  /**
   * `_extract_list(data, key)`: a list as it is; for an object the value
   * under `key`, else under "data", else an empty list. `None` stands for the
   * `AttributeError` any other value raises.
   */
  function ExtractList(data: Json, key: string): (r: Option<Json>)
    ensures data.JArr? ==> r == Some(data)
    ensures data.JObj? && key in data.fields ==> r == Some(data.fields[key])
    ensures data.JObj? && key !in data.fields && "data" in data.fields ==> r == Some(data.fields["data"])
    ensures data.JObj? && key !in data.fields && "data" !in data.fields ==> r == Some(JArr([]))
    ensures r.None? <==> !data.JArr? && !data.JObj?
  {
    match data
    case JArr(_) => Some(data)
    case JObj(m, _) => Some(if key in m then m[key] else if "data" in m then m["data"] else JArr([]))
    case _ => None
  }

  /** Why pagination stopped. */
  datatype PageStop =
    | EmptyPage                    // `not items`
    | ShortPage                    // fewer items than the page size
    | RequestFailed(e: RequestResult)  // `_request` raised
    | NoListIn(data: Json)         // the response is neither a list nor an object: `data.get` raises
    | Uniterable(value: Json)      // the extracted value is a non-zero number or `true`: `yield from` raises
    | ScriptEnded                  // the model ran out of responses

  /** Everything a pagination run yields and requests. */
  datatype PageRun = PageRun(items: seq<Json>, skips: seq<int>, stop: PageStop)

  /**
   * One page as `_paginate` treats it: what iterating a truthy extracted value
   * yields (a list's items, a string's characters, an object's member names),
   * or the reason to stop before yielding anything from it.
   */
  function PageStep(response: RequestResult, key: string): (r: Result<seq<Json>, PageStop>)
    ensures r.Success? ==>
      && r.value != [] && response.Ok? && ExtractList(response.data, key).Some?
      && Iterated(ExtractList(response.data, key).value) == Some(r.value)
    ensures r.Success? && ExtractList(response.data, key).value.JArr? ==> JArr(r.value) == ExtractList(response.data, key).value
    ensures r == Failure(RequestFailed(response)) <==> !response.Ok?
    ensures r == Failure(EmptyPage) <==> response.Ok? && ExtractList(response.data, key).Some? && !Truthy(ExtractList(response.data, key).value)
    ensures response.Ok? ==> (r == Failure(NoListIn(response.data)) <==> ExtractList(response.data, key).None?)
    ensures r.Failure? && r.error.Uniterable? <==>
      && response.Ok? && ExtractList(response.data, key).Some? && Truthy(ExtractList(response.data, key).value)
      && Iterated(ExtractList(response.data, key).value).None?
    ensures r.Failure? && r.error.Uniterable? ==> r.error.value.JNum? || r.error.value.JBool?
    ensures
      && response.Ok? && ExtractList(response.data, key).Some? && Truthy(ExtractList(response.data, key).value)
      && Iterated(ExtractList(response.data, key).value).Some?
      ==> r == Success(Iterated(ExtractList(response.data, key).value).value)
  {
    if !response.Ok? then Failure(RequestFailed(response))
    else
      var extracted := ExtractList(response.data, key);
      if extracted.None? then Failure(NoListIn(response.data))
      else if !Truthy(extracted.value) then Failure(EmptyPage)
      else match Iterated(extracted.value)
        case None => Failure(Uniterable(extracted.value))
        case Some(items) => Success(items)
  }

  /**
   * `_paginate` from offset `skip`, where request number `i` returns
   * `responses[i]`.
   */
  function Paginate(responses: seq<RequestResult>, key: string, pageSize: int, skip: int): (r: PageRun)
    ensures |r.skips| <= |responses|
    decreases |responses|
  {
    if responses == [] then PageRun([], [], ScriptEnded)
    else match PageStep(responses[0], key)
      case Failure(stop) => PageRun([], [skip], stop)
      case Success(items) =>
        if |items| < pageSize then PageRun(items, [skip], ShortPage)
        else
          var rest := Paginate(responses[1..], key, pageSize, skip + |items|);
          PageRun(items + rest.items, [skip] + rest.skips, rest.stop)
  }

  /** The items a response contributes. */
  function PageItems(r: RequestResult, key: string): seq<Json> {
    var step := PageStep(r, key);
    if step.Success? then step.value else []
  }

  /** The items of `responses`, page after page. */
  function Yield(responses: seq<RequestResult>, key: string): seq<Json> {
    if responses == [] then [] else PageItems(responses[0], key) + Yield(responses[1..], key)
  }

  /**
   * `_paginate` yields the items of the pages it requested, in order; every
   * page but the last was full and non-empty (so a full last page costs one
   * more request); a short page ends it.
   */
  lemma PaginateYields(responses: seq<RequestResult>, key: string, pageSize: int, skip: int)
    ensures var r := Paginate(responses, key, pageSize, skip);
      var n := |r.skips|;
      && r.items == Yield(responses[..n], key)
      && (forall i :: 0 <= i < n - 1 ==> pageSize <= |PageItems(responses[i], key)| && PageItems(responses[i], key) != [])
      && (r.stop == ShortPage ==> n > 0 && |PageItems(responses[n - 1], key)| < pageSize)
      && (r.stop == ScriptEnded ==> n == |responses|)
  {
    PaginateItems(responses, key, pageSize, skip);
    PaginatePages(responses, key, pageSize, skip);
  }

  /** The items of a run are those of the pages it requested. */
  lemma {:induction false} PaginateItems(responses: seq<RequestResult>, key: string, pageSize: int, skip: int)
    ensures var r := Paginate(responses, key, pageSize, skip);
      r.items == Yield(responses[..|r.skips|], key)
    decreases |responses|
  {
    var r := Paginate(responses, key, pageSize, skip);
    var n := |r.skips|;
    if responses != [] {
      var step := PageStep(responses[0], key);
      if step.Success? && |step.value| >= pageSize {
        var items := step.value;
        var tail := responses[1..];
        var rest := Paginate(tail, key, pageSize, skip + |items|);
        assert r.items == items + rest.items && r.skips == [skip] + rest.skips;
        PaginateItems(tail, key, pageSize, skip + |items|);
        var m := |rest.skips|;
        assert responses[..n][0] == responses[0] && responses[..n][1..] == tail[..m];
        assert PageItems(responses[0], key) == items;
      } else {
        assert responses[..n] == [responses[0]];
        assert Yield([responses[0]], key) == PageItems(responses[0], key) + Yield([], key);
      }
    }
  }

  /** Every page of a run but the last was full and non-empty; a short page or the end of the script ends it. */
  lemma PaginatePages(responses: seq<RequestResult>, key: string, pageSize: int, skip: int)
    ensures var r := Paginate(responses, key, pageSize, skip);
      var n := |r.skips|;
      && (forall i :: 0 <= i < n - 1 ==> pageSize <= |PageItems(responses[i], key)| && PageItems(responses[i], key) != [])
      && (r.stop == ShortPage ==> n > 0 && |PageItems(responses[n - 1], key)| < pageSize)
      && (r.stop == ScriptEnded ==> n == |responses|)
  {
    PaginateFullPages(responses, key, pageSize, skip);
    PaginateStop(responses, key, pageSize, skip);
  }

  /** Every page of a run but the last was full and non-empty. */
  lemma {:induction false} PaginateFullPages(responses: seq<RequestResult>, key: string, pageSize: int, skip: int)
    ensures var n := |Paginate(responses, key, pageSize, skip).skips|;
      forall i :: 0 <= i < n - 1 ==> pageSize <= |PageItems(responses[i], key)| && PageItems(responses[i], key) != []
    decreases |responses|
  {
    var n := |Paginate(responses, key, pageSize, skip).skips|;
    if responses != [] {
      var step := PageStep(responses[0], key);
      if step.Success? && |step.value| >= pageSize {
        var tail := responses[1..];
        var rest := Paginate(tail, key, pageSize, skip + |step.value|);
        assert n == 1 + |rest.skips|;
        PaginateFullPages(tail, key, pageSize, skip + |step.value|);
        forall i | 0 <= i < n - 1 ensures pageSize <= |PageItems(responses[i], key)| && PageItems(responses[i], key) != [] {
          if i > 0 { assert responses[i] == tail[i - 1]; }
        }
      }
    }
  }

  /** A short page ends the run at its last request; the end of the script ends it after every response. */
  lemma {:induction false} PaginateStop(responses: seq<RequestResult>, key: string, pageSize: int, skip: int)
    ensures var r := Paginate(responses, key, pageSize, skip);
      var n := |r.skips|;
      && (r.stop == ShortPage ==> n > 0 && |PageItems(responses[n - 1], key)| < pageSize)
      && (r.stop == ScriptEnded ==> n == |responses|)
    decreases |responses|
  {
    var r := Paginate(responses, key, pageSize, skip);
    var n := |r.skips|;
    if responses != [] {
      var step := PageStep(responses[0], key);
      if step.Success? && |step.value| >= pageSize {
        var tail := responses[1..];
        var rest := Paginate(tail, key, pageSize, skip + |step.value|);
        assert r.skips == [skip] + rest.skips && r.stop == rest.stop;
        PaginateStop(tail, key, pageSize, skip + |step.value|);
        if r.stop == ShortPage {
          assert responses[n - 1] == tail[|rest.skips| - 1];
        }
      }
    }
  }

  /** Request `i` asks for offset `skip` plus the number of items yielded before it. */
  lemma {:induction false} PaginateSkips(responses: seq<RequestResult>, key: string, pageSize: int, skip: int, i: int)
    requires 0 <= i < |Paginate(responses, key, pageSize, skip).skips|
    ensures Paginate(responses, key, pageSize, skip).skips[i] == skip + |Yield(responses[..i], key)|
    decreases |responses|
  {
    var r := Paginate(responses, key, pageSize, skip);
    var step := PageStep(responses[0], key);
    if i > 0 {
      var items := step.value;
      var tail := responses[1..];
      var rest := Paginate(tail, key, pageSize, skip + |items|);
      assert r == PageRun(items + rest.items, [skip] + rest.skips, rest.stop);
      PaginateSkips(tail, key, pageSize, skip + |items|, i - 1);
      assert responses[..i][0] == responses[0];
      assert responses[..i][1..] == tail[..i - 1];
    } else {
      assert responses[..0] == [];
    }
  }

  /**
   * Pages of 100, 100 and 37 items: three requests at offsets 0, 100 and 200
   * and all 237 items; when the third page is empty instead, the two full
   * pages are followed by that extra request.
   */
  lemma PaginateScenario(a: seq<Json>, b: seq<Json>, c: seq<Json>, more: seq<RequestResult>)
    requires |a| == 100 && |b| == 100 && |c| == 37
    ensures Paginate([Ok(JArr(a)), Ok(JArr(b)), Ok(JArr(c))] + more, "items", DefaultPageSize, 0)
      == PageRun(a + b + c, [0, 100, 200], ShortPage)
    ensures Paginate([Ok(JArr(a)), Ok(JArr(b)), Ok(JArr([]))], "items", DefaultPageSize, 0)
      == PageRun(a + b, [0, 100, 200], EmptyPage)
  {
    var rs := [Ok(JArr(a)), Ok(JArr(b)), Ok(JArr(c))] + more;
    assert rs[1..][1..][0] == Ok(JArr(c));
    var p2 := Paginate(rs[1..][1..], "items", DefaultPageSize, 200);
    assert PageStep(Ok(JArr(c)), "items") == Success(c);
    assert p2 == PageRun(c, [200], ShortPage);
    var p1 := Paginate(rs[1..], "items", DefaultPageSize, 100);
    assert PageStep(Ok(JArr(b)), "items") == Success(b);
    assert p1 == PageRun(b + c, [100, 200], ShortPage);
    assert PageStep(Ok(JArr(a)), "items") == Success(a);
    assert a + (b + c) == a + b + c;
    var ts := [Ok(JArr(a)), Ok(JArr(b)), Ok(JArr([]))];
    assert ts[1..][1..] == [Ok(JArr([]))];
    assert PageStep(Ok(JArr([])), "items") == Failure(EmptyPage);
    assert Paginate(ts[1..][1..], "items", DefaultPageSize, 200) == PageRun([], [200], EmptyPage);
    assert Paginate(ts[1..], "items", DefaultPageSize, 100) == PageRun(b, [100, 200], EmptyPage);
    assert a + (b + []) == a + b;
  }

  /**
   * A truthy page that is not a list is iterated all the same: a string
   * yields its characters and an object its member names, and the offset
   * moves on by that many; a non-zero number raises.
   */
  lemma PaginateNonListPages(more: seq<RequestResult>)
    ensures Paginate([Ok(JObj(map["items" := JStr("ab")], ["items"]))] + more, "items", DefaultPageSize, 0)
      == PageRun([JStr("a"), JStr("b")], [0], ShortPage)
    ensures Paginate([Ok(JObj(map["data" := JObj(map["x" := JNull], ["x"])], ["data"]))] + more, "items", 1, 0)
      == var rest := Paginate(more, "items", 1, 1);
         PageRun([JStr("x")] + rest.items, [0] + rest.skips, rest.stop)
    ensures Paginate([Ok(JObj(map["items" := JNum(7)], ["items"]))], "items", DefaultPageSize, 0)
      == PageRun([], [0], Uniterable(JNum(7)))
  {
    var page1 := Ok(JObj(map["items" := JStr("ab")], ["items"]));
    var chars := Iterated(JStr("ab")).value;
    assert chars[0] == JStr(["ab"[0]]) && chars[1] == JStr(["ab"[1]]);
    assert chars == [JStr("a"), JStr("b")];
    assert PageStep(page1, "items") == Success([JStr("a"), JStr("b")]);
    assert ([page1] + more)[0] == page1;
    var page2 := Ok(JObj(map["data" := JObj(map["x" := JNull], ["x"])], ["data"]));
    assert Iterated(JObj(map["x" := JNull], ["x"])).value == [JStr("x")];
    assert PageStep(page2, "items") == Success([JStr("x")]);
    assert ([page2] + more)[0] == page2 && ([page2] + more)[1..] == more;
  }

  /** `_paginate` from request `i` on: that request's page, then the requests after it. */
  lemma PaginateAt(responses: seq<RequestResult>, key: string, pageSize: int, skip: int, i: nat)
    requires i < |responses|
    ensures var r := Paginate(responses[i..], key, pageSize, skip);
      var step := PageStep(responses[i], key);
      && (step.Failure? ==> r == PageRun([], [skip], step.error))
      && (step.Success? && |step.value| < pageSize ==> r == PageRun(step.value, [skip], ShortPage))
      && (step.Success? && |step.value| >= pageSize ==>
            var rest := Paginate(responses[i + 1..], key, pageSize, skip + |step.value|);
            r == PageRun(step.value + rest.items, [skip] + rest.skips, rest.stop))
  {
    assert responses[i..][0] == responses[i] && responses[i..][1..] == responses[i + 1..];
  }

  /** The checks `_paginate` makes on one response before yielding its items. */
  method ReadPage(response: RequestResult, key: string) returns (r: Result<seq<Json>, PageStop>)
    ensures r == PageStep(response, key)
  {
    if !response.Ok? {
      return Failure(RequestFailed(response));
    }
    var extracted := ExtractList(response.data, key);
    if extracted.None? {
      return Failure(NoListIn(response.data));
    }
    if !Truthy(extracted.value) {
      return Failure(EmptyPage);
    }
    var items := Iterated(extracted.value);
    if items.None? {
      return Failure(Uniterable(extracted.value));
    }
    return Success(items.value);
  }

  /** The `_paginate` loop, over the same scripted responses. */
  method PaginateLoop(responses: seq<RequestResult>, key: string, pageSize: int) returns (items: seq<Json>, skips: seq<int>, stop: PageStop)
    ensures PageRun(items, skips, stop) == Paginate(responses, key, pageSize, 0)
  {
    items, skips := [], [];
    var skip := 0;
    var i := 0;
    ghost var whole := Paginate(responses, key, pageSize, 0);
    ghost var tail := whole;
    assert responses[0..] == responses;
    while i < |responses|
      invariant 0 <= i <= |responses|
      invariant tail == Paginate(responses[i..], key, pageSize, skip)
      invariant whole.items == items + tail.items
      invariant whole.skips == skips + tail.skips
      invariant whole.stop == tail.stop
      decreases |responses| - i
    {
      var page := ReadPage(responses[i], key);
      if page.Failure? || |page.value| < pageSize {
        PaginateLast(responses, key, pageSize, skip, i);
        if page.Failure? {
          skips, stop := skips + [skip], page.error;
        } else {
          items, skips, stop := items + page.value, skips + [skip], ShortPage;
        }
        return;
      }
      ghost var next := Paginate(responses[i + 1..], key, pageSize, skip + |page.value|);
      PaginateFull(responses, key, pageSize, skip, i);
      AppendAssoc(items, page.value, next.items);
      AppendAssoc(skips, [skip], next.skips);
      items, skips := items + page.value, skips + [skip];
      skip := skip + |page.value|;
      i := i + 1;
      tail := next;
    }
    PaginateEnd(responses, key, pageSize, skip, i);
    stop := ScriptEnded;
  }

  lemma AppendAssoc<T>(a: seq<T>, b: seq<T>, c: seq<T>)
    ensures a + (b + c) == (a + b) + c
  {
  }

  /** A response that stops `_paginate` ends the run from it with that single request. */
  lemma PaginateLast(responses: seq<RequestResult>, key: string, pageSize: int, skip: int, i: nat)
    requires i < |responses|
    requires var step := PageStep(responses[i], key); step.Failure? || |step.value| < pageSize
    ensures var r := Paginate(responses[i..], key, pageSize, skip);
      var step := PageStep(responses[i], key);
      && r.skips == [skip]
      && r.items == (if step.Failure? then [] else step.value)
      && r.stop == (if step.Failure? then step.error else ShortPage)
  {
    PaginateAt(responses, key, pageSize, skip, i);
  }

  /** A full page is followed by the run from the next request, at the offset moved on by the page. */
  lemma PaginateFull(responses: seq<RequestResult>, key: string, pageSize: int, skip: int, i: nat)
    requires i < |responses|
    requires var step := PageStep(responses[i], key); step.Success? && |step.value| >= pageSize
    ensures var r := Paginate(responses[i..], key, pageSize, skip);
      var page := PageStep(responses[i], key).value;
      var next := Paginate(responses[i + 1..], key, pageSize, skip + |page|);
      && r.items == page + next.items && r.skips == [skip] + next.skips && r.stop == next.stop
  {
    PaginateAt(responses, key, pageSize, skip, i);
  }

  /** With no response left, the run is empty and ends with the script. */
  lemma PaginateEnd(responses: seq<RequestResult>, key: string, pageSize: int, skip: int, i: nat)
    requires i == |responses|
    ensures Paginate(responses[i..], key, pageSize, skip) == PageRun([], [], ScriptEnded)
  {
    assert responses[i..] == [];
  }
}
