/**
 * The bounded retry of search requests (`SearchEngine._get_with_retry`):
 * up to `max_attempts` requests, a doubling pause (1, 2, 4, ... seconds)
 * after every failed attempt but the last, and the first successful response
 * or nothing. Request outcomes are an oracle indexed by attempt number, and
 * the pauses are recorded instead of slept.
 */
module Retry {
  import opened Wrappers

  function Pow2(n: nat): (r: nat)
    ensures r >= 1
  {
    if n == 0 then 1 else 2 * Pow2(n - 1)
  }

  /** The pauses before attempts 2 .. n + 1: 1, 2, 4, ... */
  function Backoff(n: nat): (s: seq<nat>)
    ensures |s| == n
  {
    seq(n, i requires 0 <= i < n => Pow2(i))
  }

  function Sum(s: seq<nat>): nat {
    if s == [] then 0 else Sum(s[..|s| - 1]) + s[|s| - 1]
  }

  /** Waiting out `n` pauses takes 2^n - 1 seconds. */
  lemma {:induction false} BackoffTotal(n: nat)
    ensures Sum(Backoff(n)) == Pow2(n) - 1
  {
    if n > 0 {
      BackoffTotal(n - 1);
      assert Backoff(n)[..n - 1] == Backoff(n - 1);
    }
  }

  /** The number of iterations of `for attempt in range(1, n + 1)`. */
  function Attempts(n: int): nat {
    if n < 0 then 0 else n
  }

  /** The outcome of one `requests.get`: a response with its status code, or a raised `RequestException`. */
  datatype HttpOutcome<B> = Response(status: int, body: B) | RequestFailed

  /**
   * A response counts as a success unless the request raised, or
   * `raise_for_status` raises (status 400 to 599, which includes the
   * explicitly rejected 429).
   */
  predicate Succeeds<B>(o: HttpOutcome<B>) {
    o.Response? && !(400 <= o.status < 600)
  }

  /** The first attempt in `from .. n - 1` that succeeds. */
  function FirstSuccess<B>(reply: nat -> HttpOutcome<B>, from: nat, n: nat): (r: Option<nat>)
    ensures r.Some? ==> from <= r.value < n && Succeeds(reply(r.value))
    ensures r.Some? ==> forall k :: from <= k < r.value ==> !Succeeds(reply(k))
    ensures r.None? ==> forall k :: from <= k < n ==> !Succeeds(reply(k))
    decreases n - from
  {
    if from >= n then None
    else if Succeeds(reply(from)) then Some(from)
    else FirstSuccess(reply, from + 1, n)
  }

  /** The body `_get_with_retry` hands back with `max_attempts` = `n`, if any. */
  function Fetched<B>(reply: nat -> HttpOutcome<B>, n: int): Option<B> {
    match FirstSuccess(reply, 0, Attempts(n))
    case Some(k) => Some(reply(k).body)
    case None => None
  }

  /** `_get_with_retry`: attempt `k` (from 0) receives `reply(k)`. */
  method GetWithRetry<B>(maxAttempts: int, reply: nat -> HttpOutcome<B>)
    returns (resp: Option<B>, requests: nat, sleeps: seq<nat>)
    ensures requests <= Attempts(maxAttempts)
    ensures forall k :: 0 <= k < requests - 1 ==> !Succeeds(reply(k))
    ensures resp.Some? <==> requests > 0 && Succeeds(reply(requests - 1))
    ensures resp.Some? ==> resp.value == reply(requests - 1).body
    ensures resp.None? ==> requests == Attempts(maxAttempts)
    ensures sleeps == Backoff(if requests == 0 then 0 else requests - 1)
    ensures resp == Fetched(reply, maxAttempts)
  {
    var delay: nat := 1;
    var attempt := 1;
    requests, sleeps := 0, [];
    while attempt <= maxAttempts
      invariant 1 <= attempt && requests == attempt - 1 <= Attempts(maxAttempts)
      invariant forall k :: 0 <= k < requests ==> !Succeeds(reply(k))
      invariant attempt <= maxAttempts ==> sleeps == Backoff(requests)
      invariant attempt > maxAttempts ==> sleeps == Backoff(if requests == 0 then 0 else requests - 1)
      invariant delay == Pow2(|sleeps|)
    {
      var outcome := reply(attempt - 1);
      requests := attempt;
      if Succeeds(outcome) {
        assert sleeps == Backoff(requests - 1);
        FirstSuccessAt(reply, requests - 1, Attempts(maxAttempts));
        return Some(outcome.body), requests, sleeps;
      }
      if attempt < maxAttempts {
        assert Backoff(requests) == Backoff(requests - 1) + [delay];
        sleeps := sleeps + [delay];
        delay := delay * 2;
      }
      attempt := attempt + 1;
    }
    resp := None;
    NoSuccessBefore(reply, 0, requests);
  }

  lemma NoSuccessBefore<B>(reply: nat -> HttpOutcome<B>, from: nat, n: nat)
    requires forall k :: from <= k < n ==> !Succeeds(reply(k))
    ensures FirstSuccess(reply, from, n) == None
  {
  }

  lemma FirstSuccessAt<B>(reply: nat -> HttpOutcome<B>, k: nat, n: nat)
    requires k < n && Succeeds(reply(k)) && forall j :: 0 <= j < k ==> !Succeeds(reply(j))
    ensures FirstSuccess(reply, 0, n) == Some(k)
  {
  }
}
