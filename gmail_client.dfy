/** The remote-call layer: `GmailClient._retry_with_backoff` and the request
    parameters of `list_messages` and `get_message`.

    The remote operation is a scripted oracle, the way the tests script a
    mock's `side_effect`: call number `k` (counting from 0) yields the `k`-th
    outcome of the script, and a call past the end of the script raises an
    exception that is not an `HttpError`. `time.sleep` is an appended log of
    delays in whole seconds. */
module GmailClient {
  import opened Common

  /** An `HttpError` as the callers inspect it: the status read from
      `e.status_code` or else `e.resp.status`, and `str(e)`. */
  datatype HttpError = HttpError(status: Option<int>, text: string)

  /** What one call of a remote operation does: return a value, raise an
      `HttpError`, or raise any other exception. */
  datatype Outcome<+T> =
    | Return(value: T)
    | HttpFailure(error: HttpError)
    | OtherFailure(message: string)

  /** The `k`-th call of a scripted operation. */
  function Call<T>(script: seq<Outcome<T>>, k: nat): Outcome<T> {
    if k < |script| then script[k] else OtherFailure("StopIteration")
  }

  /** The retry parameters both client operations pass. */
  const MaxRetries: nat := 3
  const BackoffBase: nat := 1

  /** The largest page `messages.list` accepts. */
  const ListPageCeiling: int := 500

  function Pow2(n: nat): (r: nat)
    ensures r >= 1
  {
    if n == 0 then 1 else 2 * Pow2(n - 1)
  }

  /** `backoff_base * (2 ** attempt)`. */
  function Delay(base: nat, attempt: nat): nat {
    base * Pow2(attempt)
  }

  /** The delays slept before retries 1 .. n: `base * 2^0, ..., base * 2^(n-1)`. */
  function Schedule(base: nat, n: nat): (s: seq<nat>)
    ensures |s| == n
    ensures forall a :: 0 <= a < n ==> s[a] == Delay(base, a)
  {
    if n == 0 then [] else Schedule(base, n - 1) + [Delay(base, n - 1)]
  }

  /** The statuses that are retried: 429, and any truthy status in [500, 600). */
  predicate IsRetryableStatus(status: Option<int>) {
    status.Some? && (status.value == 429 || 500 <= status.value < 600)
  }

  /** An outcome that makes the loop sleep and call again (if attempts remain). */
  predicate IsRetryable<T>(o: Outcome<T>) {
    o.HttpFailure? && IsRetryableStatus(o.error.status)
  }

  /** One run of the retry loop: what it returns or raises, how often it
      called the operation, and what it slept. */
  datatype Run<+T> = Run(outcome: Outcome<T>, calls: nat, delays: seq<nat>)

  /** The retry loop from `attempt` on. */
  function RetryFrom<T>(script: seq<Outcome<T>>, maxRetries: nat, base: nat, attempt: nat): Run<T>
    requires attempt <= maxRetries
    decreases maxRetries - attempt
  {
    var o := Call(script, attempt);
    if IsRetryable(o) && attempt < maxRetries then
      var rest := RetryFrom(script, maxRetries, base, attempt + 1);
      Run(rest.outcome, rest.calls, [Delay(base, attempt)] + rest.delays)
    else
      Run(o, attempt + 1, [])
  }

  /** `_retry_with_backoff(func, max_retries, backoff_base)`. */
  function Retry<T>(script: seq<Outcome<T>>, maxRetries: nat, base: nat): Run<T> {
    RetryFrom(script, maxRetries, base, 0)
  }

  /** What the retry loop promises, for any script:
      - it calls the operation between 1 and `maxRetries + 1` times;
      - it returns or raises exactly what the last call returned or raised;
      - every earlier call raised a retryable `HttpError` (so a 401, any other
        status, a missing status and a non-HTTP exception all end the loop at
        once), and the last call is retryable only when no retry was left;
      - it slept `base * 2^a` after each failed attempt `a` but the last. */
  lemma {:induction false} RetryContract<T>(script: seq<Outcome<T>>, maxRetries: nat, base: nat)
    ensures var r := Retry(script, maxRetries, base);
      && 1 <= r.calls <= maxRetries + 1
      && r.outcome == Call(script, r.calls - 1)
      && (forall a :: 0 <= a < r.calls - 1 ==> IsRetryable(Call(script, a)))
      && (IsRetryable(r.outcome) ==> r.calls == maxRetries + 1)
      && r.delays == Schedule(base, r.calls - 1)
  {
    RetryFromContract(script, maxRetries, base, 0);
  }

  lemma {:induction false} RetryFromContract<T>(script: seq<Outcome<T>>, maxRetries: nat, base: nat, attempt: nat)
    requires attempt <= maxRetries
    ensures var r := RetryFrom(script, maxRetries, base, attempt);
      && attempt + 1 <= r.calls <= maxRetries + 1
      && r.outcome == Call(script, r.calls - 1)
      && (forall a :: attempt <= a < r.calls - 1 ==> IsRetryable(Call(script, a)))
      && (IsRetryable(r.outcome) ==> r.calls == maxRetries + 1)
      && |r.delays| == r.calls - 1 - attempt
      && (forall i :: 0 <= i < |r.delays| ==> r.delays[i] == Delay(base, attempt + i))
    decreases maxRetries - attempt
  {
    var o := Call(script, attempt);
    if IsRetryable(o) && attempt < maxRetries {
      RetryFromContract(script, maxRetries, base, attempt + 1);
    }
  }

  /** A run is determined by the script: the contract above has exactly one
      solution, so any loop that meets it behaves like `Retry`. */
  lemma RetryContractUnique<T>(script: seq<Outcome<T>>, maxRetries: nat, base: nat, r: Run<T>)
    requires 1 <= r.calls <= maxRetries + 1
    requires r.outcome == Call(script, r.calls - 1)
    requires forall a :: 0 <= a < r.calls - 1 ==> IsRetryable(Call(script, a))
    requires IsRetryable(r.outcome) ==> r.calls == maxRetries + 1
    requires r.delays == Schedule(base, r.calls - 1)
    ensures r == Retry(script, maxRetries, base)
  {
    var s := Retry(script, maxRetries, base);
    RetryContract(script, maxRetries, base);
    // the last call of each run is an instance of the other run's contract
    ghost var lastOfS, lastOfR := Call(script, s.calls - 1), Call(script, r.calls - 1);
  }

  /** The method form of `_retry_with_backoff`: a `for attempt` loop that
      returns the first result, re-raises at once what is not retryable, and
      sleeps and continues on a retryable error while attempts remain. The
      fall-through after the Python loop is unreachable, which the loop below
      makes evident: it has no exit but `return`. */
  method RetryWithBackoff<T>(script: seq<Outcome<T>>, maxRetries: nat, base: nat)
    returns (outcome: Outcome<T>, calls: nat, delays: seq<nat>)
    ensures Run(outcome, calls, delays) == Retry(script, maxRetries, base)
    ensures 1 <= calls <= maxRetries + 1 && outcome == Call(script, calls - 1)
    ensures delays == Schedule(base, calls - 1)
  {
    calls, delays := 0, [];
    var attempt: nat := 0;
    while true
      invariant attempt <= maxRetries && calls == attempt
      invariant delays == Schedule(base, attempt)
      invariant Retry(script, maxRetries, base) ==
        var rest := RetryFrom(script, maxRetries, base, attempt);
        Run(rest.outcome, rest.calls, delays + rest.delays)
      decreases maxRetries - attempt
    {
      var result := Call(script, attempt);
      calls := calls + 1;
      ghost var rest := RetryFrom(script, maxRetries, base, attempt);
      assert !(IsRetryable(result) && attempt < maxRetries) ==> rest == Run(result, attempt + 1, []);
      assert delays + [] == delays;
      match result
      case Return(_) =>
        outcome := result;
        return;
      case OtherFailure(_) =>
        // only HttpError is caught: anything else escapes on this attempt
        outcome := result;
        return;
      case HttpFailure(e) =>
        if e.status == Some(401) {
          outcome := result;
          return;
        }
        if IsRetryableStatus(e.status) {
          if attempt < maxRetries {
            ghost var next := RetryFrom(script, maxRetries, base, attempt + 1);
            assert rest == Run(next.outcome, next.calls, [Delay(base, attempt)] + next.delays);
            assert delays + rest.delays == (delays + [Delay(base, attempt)]) + next.delays;
            delays := delays + [Delay(base, attempt)];
            attempt := attempt + 1;
            continue;
          }
          outcome := result;
          return;
        }
        outcome := result;
        return;
    }
  }

  // ---------------------------------------------------------------------------
  // The two client operations
  // ---------------------------------------------------------------------------

  /** `min(max_results, 500)`: the page size sent to `messages.list`. */
  function PageSize(maxResults: int): (n: int)
    ensures n <= ListPageCeiling
    ensures maxResults <= ListPageCeiling ==> n == maxResults
    ensures maxResults > ListPageCeiling ==> n == ListPageCeiling
  {
    if maxResults < ListPageCeiling then maxResults else ListPageCeiling
  }

  /** The arguments of one `messages.list` request. */
  datatype ListRequest = ListRequest(userId: string, query: string, maxResults: int, pageToken: Option<string>)

  /** The arguments of one `messages.get` request. */
  datatype GetRequest = GetRequest(userId: string, id: string, format: string)

  /** `list_messages`: every attempt sends the same request, with the page
      size clamped, and the call goes through the retry loop with three
      retries and a one-second base: it is made one to four times, every
      call but the last raised a retryable error, the last call's outcome is
      the result, and the sleeps were 1, 2, 4 seconds as far as needed. */
  function ListMessages<T>(query: string, maxResults: int, pageToken: Option<string>, script: seq<Outcome<T>>)
    : (r: (ListRequest, Run<T>))
    ensures r.0 == ListRequest("me", query, PageSize(maxResults), pageToken)
    ensures r.0.maxResults <= ListPageCeiling
    ensures r.1 == Retry(script, MaxRetries, BackoffBase)
    ensures 1 <= r.1.calls <= 4
    ensures r.1.outcome == Call(script, r.1.calls - 1)
    ensures forall a :: 0 <= a < r.1.calls - 1 ==> IsRetryable(Call(script, a))
    ensures IsRetryable(r.1.outcome) ==> r.1.calls == 4
    ensures r.1.delays == Schedule(1, r.1.calls - 1)
  {
    RetryContract(script, MaxRetries, BackoffBase);
    (ListRequest("me", query, PageSize(maxResults), pageToken), Retry(script, MaxRetries, BackoffBase))
  }

  /** `get_message`: the same retry promise as `list_messages`. */
  function GetMessage<T>(messageId: string, fmt: string, script: seq<Outcome<T>>): (r: (GetRequest, Run<T>))
    ensures r.0 == GetRequest("me", messageId, fmt)
    ensures r.1 == Retry(script, MaxRetries, BackoffBase)
    ensures 1 <= r.1.calls <= 4
    ensures r.1.outcome == Call(script, r.1.calls - 1)
    ensures forall a :: 0 <= a < r.1.calls - 1 ==> IsRetryable(Call(script, a))
    ensures IsRetryable(r.1.outcome) ==> r.1.calls == 4
    ensures r.1.delays == Schedule(1, r.1.calls - 1)
  {
    RetryContract(script, MaxRetries, BackoffBase);
    (GetRequest("me", messageId, fmt), Retry(script, MaxRetries, BackoffBase))
  }

  // ---------------------------------------------------------------------------
  // Consequences of the retry policy
  // ---------------------------------------------------------------------------

  /** A call that succeeds on attempt `k` after `k` retryable failures was made
      exactly `k + 1` times and its value is returned unchanged. */
  lemma ImmediateSuccess<T>(script: seq<Outcome<T>>, maxRetries: nat, base: nat, k: nat, v: T)
    requires k <= maxRetries
    requires forall a :: 0 <= a < k ==> IsRetryable(Call(script, a))
    requires Call(script, k) == Return(v)
    ensures Retry(script, maxRetries, base).outcome == Return(v)
    ensures Retry(script, maxRetries, base).calls == k + 1
  {
    var r := Retry(script, maxRetries, base);
    RetryContract(script, maxRetries, base);
    ghost var last := Call(script, r.calls - 1);
  }

  /** A 401 on attempt `k` is re-raised on that attempt: no later call and no
      sleep after it. */
  lemma Unauthorized<T>(script: seq<Outcome<T>>, maxRetries: nat, base: nat, k: nat, e: HttpError)
    requires k <= maxRetries
    requires forall a :: 0 <= a < k ==> IsRetryable(Call(script, a))
    requires Call(script, k) == HttpFailure(e) && e.status == Some(401)
    ensures Retry(script, maxRetries, base) == Run(HttpFailure(e), k + 1, Schedule(base, k))
  {
    var r := Retry(script, maxRetries, base);
    RetryContract(script, maxRetries, base);
    ghost var last := Call(script, r.calls - 1);
  }

  /** A status that is neither 429 nor in [500, 600), including a missing
      status, and any non-HTTP exception, is raised on the attempt that
      produced it without sleeping first. */
  lemma NotRetried<T>(script: seq<Outcome<T>>, maxRetries: nat, base: nat, k: nat)
    requires k <= maxRetries
    requires forall a :: 0 <= a < k ==> IsRetryable(Call(script, a))
    requires !Call(script, k).Return? && !IsRetryable(Call(script, k))
    ensures Retry(script, maxRetries, base) == Run(Call(script, k), k + 1, Schedule(base, k))
  {
    var r := Retry(script, maxRetries, base);
    RetryContract(script, maxRetries, base);
    ghost var last := Call(script, r.calls - 1);
  }

  /** When every attempt fails with a retryable status, the loop makes
      `maxRetries + 1` calls, sleeps before each retry and re-raises the last
      error. */
  lemma Exhausted<T>(script: seq<Outcome<T>>, maxRetries: nat, base: nat)
    requires forall a :: 0 <= a <= maxRetries ==> IsRetryable(Call(script, a))
    ensures Retry(script, maxRetries, base) ==
      Run(Call(script, maxRetries), maxRetries + 1, Schedule(base, maxRetries))
  {
    var r := Retry(script, maxRetries, base);
    RetryContract(script, maxRetries, base);
    assert IsRetryable(Call(script, r.calls - 1));
  }

  /** With the parameters both operations use, a persistently rate-limited
      request is sent four times and sleeps 1, 2 and 4 seconds. */
  lemma PersistentRateLimit<T>(query: string, maxResults: int, pageToken: Option<string>, e: HttpError)
    requires e.status == Some(429)
    ensures ListMessages(query, maxResults, pageToken, [HttpFailure(e), HttpFailure(e), HttpFailure(e), HttpFailure(e)]).1
      == Run<T>.Run(HttpFailure(e), 4, [1, 2, 4])
  {
    var script: seq<Outcome<T>> := [HttpFailure(e), HttpFailure(e), HttpFailure(e), HttpFailure(e)];
    Exhausted(script, MaxRetries, BackoffBase);
    assert Schedule(BackoffBase, 3) == [1, 2, 4];
  }

  /** Server errors are retried as often as rate limiting, despite the
      comment announcing fewer retries for 5xx: a persistent 503 is also sent
      four times with delays 1, 2 and 4. */
  lemma PersistentServerError<T>(messageId: string, fmt: string, e: HttpError)
    requires e.status == Some(503)
    ensures GetMessage(messageId, fmt, [HttpFailure(e), HttpFailure(e), HttpFailure(e), HttpFailure(e)]).1
      == Run<T>.Run(HttpFailure(e), 4, [1, 2, 4])
  {
    var script: seq<Outcome<T>> := [HttpFailure(e), HttpFailure(e), HttpFailure(e), HttpFailure(e)];
    Exhausted(script, MaxRetries, BackoffBase);
    assert Schedule(BackoffBase, 3) == [1, 2, 4];
  }

  /** Three rate-limit errors and then a page: the page is returned after
      sleeping 1, 2 and 4 seconds. */
  lemma RecoversAfterThreeRateLimits<T>(query: string, maxResults: int, e: HttpError, page: T)
    requires e.status == Some(429)
    ensures ListMessages(query, maxResults, None, [HttpFailure(e), HttpFailure(e), HttpFailure(e), Return(page)]).1
      == Run(Return(page), 4, [1, 2, 4])
  {
    var script := [HttpFailure(e), HttpFailure(e), HttpFailure(e), Return(page)];
    ImmediateSuccess(script, MaxRetries, BackoffBase, 3, page);
    RetryContract(script, MaxRetries, BackoffBase);
    assert Schedule(BackoffBase, 3) == [1, 2, 4];
  }
}
