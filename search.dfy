/** `search_semantic_scholar`: one publication-count query, retried with
    jittered exponential backoff, optionally followed by one request that
    samples citation counts.

    The network, the clock and the random number generator are inputs:
    `transport(k)` is what the k-th count request (k = 0, 1, ...) comes back
    with, `sample` is what the citation request would come back with, and
    `jitter(k)` is the `random.uniform(0, 1)` drawn for the k-th wait.  The
    waits the function would sleep are returned instead of slept. */
module SemanticScholar {
  import opened Wrappers
  import opened PyStr
  import opened Citations

  /** The default of the `max_retries` parameter, which every call of the trend
      sweep uses. */
  const DefaultMaxRetries: int := 3

  /** Backoff bases: a 429 status waits `3^n`, a request exception `2^n`. */
  const RateLimitBase: nat := 3
  const ErrorBase: nat := 2

  const MaxRetriesMessage: string := "Max retries exceeded"

  /** The query parameters of a search request. */
  datatype Request = Request(query: string, year: string, limit: nat, fields: string)

  /** The count request: one result is enough to read `total`. */
  function CountRequest(query: string, year: int): Request {
    Request(query, IntToString(year), 1, "year")
  }

  /** The citation request: a sample of up to 100 papers. */
  function SampleRequest(query: string, year: int): Request {
    Request(query, IntToString(year), 100, "citationCount")
  }

  /** What a count request comes back with. */
  datatype Response =
    | RateLimited                    // status 429
    | Found(total: Option<int>)      // a JSON body; `total` is its 'total' key, if present
    | RequestError(message: string)  // a RequestException (including raise_for_status on another error status)

  /** What the citation request comes back with: the JSON body's 'data' list
      (None when the key is absent or null), or the text of any exception. */
  datatype SampleResponse = Sample(data: Option<seq<Paper>>) | SampleError(message: string)

  /** The returned triple `(total, citation_count, error_msg)`. */
  datatype SearchResult = SearchResult(publications: int, citationAvg: real, errorMsg: Option<string>)

  /** A result together with the requests issued and the waits slept, in order. */
  datatype Run = Run(result: SearchResult, requests: seq<Request>, waits: seq<real>)

  function Pow(b: nat, n: nat): nat
    decreases n
  {
    if n == 0 then 1 else b * Pow(b, n - 1)
  }

  function RateLimitMessage(maxRetries: int): string {
    "Rate limit exceeded after " + IntToString(maxRetries) + " retries"
  }

  function ApiErrorMessage(detail: string): string {
    "API Error: " + detail
  }

  function AdvisoryMessage(detail: string): string {
    "Got publication count " + "but couldn't retrieve citation data: " + detail
  }

  /** `data.get('total', 0)`. */
  function TotalOf(total: Option<int>): int {
    match total
    case Some(n) => n
    case None => 0
  }

  /** An exception is retried only when its text mentions 429. */
  predicate Retryable(r: Response) {
    r.RateLimited? || (r.RequestError? && Contains(r.message, "429"))
  }

  function BackoffBase(r: Response): nat {
    if r.RateLimited? then RateLimitBase else ErrorBase
  }

  function Repeat<T>(x: T, n: nat): (s: seq<T>)
    ensures |s| == n && forall k :: 0 <= k < n ==> s[k] == x
  {
    seq(n, _ => x)
  }

  /** `run` preceded by the given requests and waits. */
  function Prefixed(requests: seq<Request>, waits: seq<real>, run: Run): Run {
    run.(requests := requests + run.requests, waits := waits + run.waits)
  }

  /** What follows a successful count response: the optional citation
      request and the returned triple, as in the success branch. */
  function Complete(query: string, year: int, includeCitations: bool,
                    total: Option<int>, sample: SampleResponse): Run
  {
    var count := TotalOf(total);
    if includeCitations && count > 0 then
      match sample
      case SampleError(m) =>
        Run(SearchResult(count, 0.0, Some(AdvisoryMessage(m))), [SampleRequest(query, year)], [])
      case Sample(data) =>
        Run(SearchResult(count, MeanCitations(data), None), [SampleRequest(query, year)], [])
    else
      Run(SearchResult(count, 0.0, None), [], [])
  }

  /** The arguments of one call, the transport and the jitter source. */
  datatype Call = Call(query: string, year: int, includeCitations: bool, maxRetries: int,
                       transport: nat -> Response, sample: SampleResponse, jitter: nat -> real)

  /** The wait slept after the `k`-th count request when that one is retried:
      `base ** (k + 1) + random.uniform(0, 1)`. */
  function WaitAfter(c: Call, k: nat): real {
    (Pow(BackoffBase(c.transport(k)), k + 1) as real) + c.jitter(k)
  }

  /** The retry state machine from the point where `retry_count` equals
      `retryCount`: the next count request is the `retryCount`-th. */
  function Attempt(c: Call, retryCount: nat): Run
    decreases c.maxRetries - retryCount
  {
    if retryCount > c.maxRetries then
      Run(SearchResult(0, 0.0, Some(MaxRetriesMessage)), [], [])
    else
      var request := CountRequest(c.query, c.year);
      var response := c.transport(retryCount);
      var next := retryCount + 1;
      if response.Found? then
        Prefixed([request], [], Complete(c.query, c.year, c.includeCitations, response.total, c.sample))
      else if next > c.maxRetries && response.RateLimited? then
        Run(SearchResult(0, 0.0, Some(RateLimitMessage(c.maxRetries))), [request], [])
      else if next > c.maxRetries || !Retryable(response) then
        Run(SearchResult(0, 0.0, Some(ApiErrorMessage(response.message))), [request], [])
      else
        Prefixed([request], [WaitAfter(c, retryCount)], Attempt(c, next))
  }

  /** A retried request contributes one request and one wait before the rest. */
  lemma BackoffStep(c: Call, retryCount: nat)
    requires retryCount + 1 <= c.maxRetries && Retryable(c.transport(retryCount))
    ensures Attempt(c, retryCount)
            == Prefixed([CountRequest(c.query, c.year)], [WaitAfter(c, retryCount)], Attempt(c, retryCount + 1))
  {
  }

  lemma PrefixedTwice(r1: seq<Request>, w1: seq<real>, r2: seq<Request>, w2: seq<real>, run: Run)
    ensures Prefixed(r1, w1, Prefixed(r2, w2, run)) == Prefixed(r1 + r2, w1 + w2, run)
  {
    assert r1 + (r2 + run.requests) == (r1 + r2) + run.requests;
    assert w1 + (w2 + run.waits) == (w1 + w2) + run.waits;
  }

  /** The whole call, as the function runs it: the loop issues a count
      request, backs off and retries on a 429 status or on an exception that
      mentions 429, and returns at the first other outcome. */
  method SearchSemanticScholar(query: string, year: int, includeCitations: bool, maxRetries: int,
                               transport: nat -> Response, sample: SampleResponse, jitter: nat -> real)
    returns (publications: int, citationAvg: real, errorMsg: Option<string>,
             requests: seq<Request>, waits: seq<real>)
    ensures Run(SearchResult(publications, citationAvg, errorMsg), requests, waits)
            == Attempt(Call(query, year, includeCitations, maxRetries, transport, sample, jitter), 0)
  {
    ghost var c := Call(query, year, includeCitations, maxRetries, transport, sample, jitter);
    var params := CountRequest(query, year);
    requests, waits := [], [];
    var retryCount: nat := 0;
    while retryCount <= maxRetries
      invariant |waits| == retryCount
      invariant Attempt(c, 0) == Prefixed(requests, waits, Attempt(c, retryCount))
      decreases maxRetries - retryCount
    {
      var response := transport(retryCount);
      ghost var requestsBefore, waitsBefore, retriedFrom := requests, waits, retryCount;
      requests := requests + [params];
      match response {
        case RateLimited =>
          retryCount := retryCount + 1;
          if retryCount > maxRetries {
            return 0, 0.0, Some(RateLimitMessage(maxRetries)), requests, waits;
          }
          var waitTime := (Pow(RateLimitBase, retryCount) as real) + jitter(retryCount - 1);
          waits := waits + [waitTime];
        case RequestError(message) =>
          retryCount := retryCount + 1;
          if retryCount > maxRetries || !Contains(message, "429") {
            return 0, 0.0, Some(ApiErrorMessage(message)), requests, waits;
          }
          var waitTime := (Pow(ErrorBase, retryCount) as real) + jitter(retryCount - 1);
          waits := waits + [waitTime];
        case Found(data) =>
          var total := TotalOf(data);
          var citationCount := 0.0;
          var errorMessage: Option<string> := None;
          if includeCitations && total > 0 {
            requests := requests + [SampleRequest(query, year)];
            match sample {
              case SampleError(message) =>
                errorMessage := Some(AdvisoryMessage(message));
              case Sample(papers) =>
                if papers.Some? && papers.value != [] {
                  citationCount := (SumCounts(papers.value) as real) / (|papers.value| as real);
                }
            }
          }
          return total, citationCount, errorMessage, requests, waits;
      }
      BackoffStep(c, retriedFrom);
      assert waits == waitsBefore + [WaitAfter(c, retriedFrom)];
      PrefixedTwice(requestsBefore, waitsBefore, [params], [WaitAfter(c, retriedFrom)], Attempt(c, retryCount));
    }
    return 0, 0.0, Some(MaxRetriesMessage), requests, waits;
  }

  /** The `k`-th count request is retried (followed by a wait and another
      request) exactly when its outcome is retryable and `k + 1` retries are
      still allowed. */
  predicate Stops(c: Call, k: nat) {
    c.transport(k).Found? || !Retryable(c.transport(k)) || k + 1 > c.maxRetries
  }

  /** From `retry_count == retryCount` on: the requests are count requests,
      one more than the waits, possibly followed by the citation request,
      and "Max retries exceeded" never comes out. */
  lemma {:induction false} RunShape(c: Call, retryCount: nat)
    requires retryCount <= c.maxRetries
    ensures var run := Attempt(c, retryCount);
      && |run.waits| <= c.maxRetries - retryCount
      && |run.waits| + 1 <= |run.requests| <= |run.waits| + 2
      && (forall k :: 0 <= k <= |run.waits| ==> run.requests[k] == CountRequest(c.query, c.year))
      && (|run.requests| == |run.waits| + 2 ==>
            && run.requests[|run.waits| + 1] == SampleRequest(c.query, c.year)
            && c.includeCitations && run.result.publications > 0)
      && run.result.errorMsg != Some(MaxRetriesMessage)
    decreases c.maxRetries - retryCount
  {
    var run := Attempt(c, retryCount);
    var response := c.transport(retryCount);
    if response.Found? {
      if c.sample.SampleError? {
        assert AdvisoryMessage(c.sample.message)[0] == 'G';
      }
    } else if retryCount + 1 > c.maxRetries && response.RateLimited? {
      assert run.result.errorMsg.value[0] == 'R';
    } else if retryCount + 1 > c.maxRetries || !Retryable(response) {
      assert run.result.errorMsg.value[0] == 'A';
    } else {
      RunShape(c, retryCount + 1);
      var rest := Attempt(c, retryCount + 1);
      assert run.requests == [CountRequest(c.query, c.year)] + rest.requests;
      assert run.waits == [WaitAfter(c, retryCount)] + rest.waits;
      assert run.result == rest.result;
    }
  }

  /** `w` is the wait slept after the `k`-th count request because its
      outcome was retried. */
  predicate BackoffWait(c: Call, k: nat, w: real) {
    Retryable(c.transport(k)) && w == WaitAfter(c, k)
  }

  /** Every wait is the backoff of a retryable outcome: the `k`-th wait
      follows the `k`-th count request. */
  lemma {:induction false} WaitSchedule(c: Call, retryCount: nat)
    ensures forall k :: 0 <= k < |Attempt(c, retryCount).waits| ==>
      BackoffWait(c, retryCount + k, Attempt(c, retryCount).waits[k])
    decreases c.maxRetries - retryCount
  {
    var run := Attempt(c, retryCount);
    if retryCount <= c.maxRetries && !Stops(c, retryCount) {
      var rest := Attempt(c, retryCount + 1);
      WaitSchedule(c, retryCount + 1);
      assert run.waits == [WaitAfter(c, retryCount)] + rest.waits;
      forall k | 0 <= k < |run.waits|
        ensures BackoffWait(c, retryCount + k, run.waits[k])
      {
        if k > 0 {
          var k' := k - 1;
          assert 0 <= k' < |rest.waits|;
          assert BackoffWait(c, retryCount + 1 + k', rest.waits[k']);
          assert retryCount + 1 + k' == retryCount + k;
        }
      }
    }
  }

  /** The index of the count request a run from `retryCount` returns at. */
  function EndIndex(c: Call, retryCount: nat): nat {
    retryCount + |Attempt(c, retryCount).waits|
  }

  /** A run returns at the first request that stops the loop: all earlier
      outcomes were retried, and it lies within `max_retries`. */
  lemma {:induction false} RunStopsAt(c: Call, retryCount: nat)
    requires retryCount <= c.maxRetries
    ensures EndIndex(c, retryCount) <= c.maxRetries
    ensures forall j :: retryCount <= j < EndIndex(c, retryCount) ==> !Stops(c, j)
    ensures Stops(c, EndIndex(c, retryCount))
    decreases c.maxRetries - retryCount
  {
    if !Stops(c, retryCount) {
      RunStopsAt(c, retryCount + 1);
      assert Attempt(c, retryCount).waits == [WaitAfter(c, retryCount)] + Attempt(c, retryCount + 1).waits;
      assert EndIndex(c, retryCount) == EndIndex(c, retryCount + 1);
    }
  }

  /** What a run returns is decided by the outcome it returns at. */
  lemma {:induction false} RunResult(c: Call, retryCount: nat)
    requires retryCount <= c.maxRetries
    ensures var last := c.transport(EndIndex(c, retryCount));
      && (last.RateLimited? ==>
            Attempt(c, retryCount).result == SearchResult(0, 0.0, Some(RateLimitMessage(c.maxRetries))))
      && (last.RequestError? ==>
            Attempt(c, retryCount).result == SearchResult(0, 0.0, Some(ApiErrorMessage(last.message))))
      && (last.Found? ==>
            Attempt(c, retryCount)
            == Prefixed(Repeat(CountRequest(c.query, c.year), EndIndex(c, retryCount) - retryCount + 1),
                        Attempt(c, retryCount).waits,
                        Complete(c.query, c.year, c.includeCitations, last.total, c.sample)))
    decreases c.maxRetries - retryCount
  {
    if !Stops(c, retryCount) {
      RunResult(c, retryCount + 1);
      var run := Attempt(c, retryCount);
      var rest := Attempt(c, retryCount + 1);
      var req := CountRequest(c.query, c.year);
      assert run == Prefixed([req], [WaitAfter(c, retryCount)], rest);
      assert EndIndex(c, retryCount) == EndIndex(c, retryCount + 1) by {
        assert run.waits == [WaitAfter(c, retryCount)] + rest.waits;
      }
      var n := EndIndex(c, retryCount) - retryCount;
      assert [req] + Repeat(req, n) == Repeat(req, n + 1);
      if c.transport(EndIndex(c, retryCount)).Found? {
        var done := Complete(c.query, c.year, c.includeCitations,
                             c.transport(EndIndex(c, retryCount)).total, c.sample);
        assert rest == Prefixed(Repeat(req, n), rest.waits, done);
        PrefixedTwice([req], [WaitAfter(c, retryCount)], Repeat(req, n), rest.waits, done);
      }
    } else {
      assert Attempt(c, retryCount).waits == [];
      assert Repeat(CountRequest(c.query, c.year), 1) == [CountRequest(c.query, c.year)];
    }
  }

  /** The `t`-th request is the one the loop returns at, when all earlier
      ones were retried and it stops the loop. */
  lemma EndsAt(c: Call, t: nat)
    requires t <= c.maxRetries
    requires forall j :: 0 <= j < t ==> !Stops(c, j)
    requires Stops(c, t)
    ensures |Attempt(c, 0).waits| == t
  {
    RunStopsAt(c, 0);
  }

  /** `max_retries` bounds the work of a call: at most `max_retries + 1`
      count requests and `max_retries` waits, and when `max_retries >= 0`
      every ending is a return inside the loop, so "Max retries exceeded" is
      never returned.  With a negative `max_retries` no request is issued and
      that message is the result. */
  lemma RetryBounds(c: Call)
    ensures var run := Attempt(c, 0);
      c.maxRetries >= 0 ==>
        && |run.waits| <= c.maxRetries
        && Count(run.requests, CountRequest(c.query, c.year)) == |run.waits| + 1 <= c.maxRetries + 1
        && run.result.errorMsg != Some(MaxRetriesMessage)
    ensures c.maxRetries < 0 ==>
      Attempt(c, 0) == Run(SearchResult(0, 0.0, Some(MaxRetriesMessage)), [], [])
  {
    if c.maxRetries >= 0 {
      RunShape(c, 0);
      var run := Attempt(c, 0);
      var n := |run.waits| + 1;
      assert run.requests == run.requests[..n] + run.requests[n..];
      assert run.requests[..n] == Repeat(CountRequest(c.query, c.year), n);
      CountRepeat(CountRequest(c.query, c.year), n);
      assert SampleRequest(c.query, c.year) != CountRequest(c.query, c.year);
      CountAppend(run.requests[..n], run.requests[n..], CountRequest(c.query, c.year));
      if |run.requests| == n + 1 {
        assert run.requests[n..] == [SampleRequest(c.query, c.year)];
      } else {
        assert run.requests[n..] == [];
      }
    }
  }

  /** Every message the function returns is non-empty, so `if error_msg:`
      in a caller sees each of them. */
  lemma {:induction false} MessagesNonEmpty(c: Call, retryCount: nat)
    ensures var r := Attempt(c, retryCount).result;
      r.errorMsg.Some? ==> r.errorMsg.value != ""
    decreases c.maxRetries - retryCount
  {
    if retryCount <= c.maxRetries && !Stops(c, retryCount) {
      MessagesNonEmpty(c, retryCount + 1);
    }
  }

  /** The number of occurrences of `x` in `s`. */
  function Count<T(==)>(s: seq<T>, x: T): (n: nat)
    ensures n <= |s|
    decreases |s|
  {
    if s == [] then 0 else (if s[0] == x then 1 else 0) + Count(s[1..], x)
  }

  lemma {:induction false} CountAppend<T>(a: seq<T>, b: seq<T>, x: T)
    ensures Count(a + b, x) == Count(a, x) + Count(b, x)
    decreases |a|
  {
    if a == [] {
      assert a + b == b;
    } else {
      assert (a + b)[0] == a[0];
      assert (a + b)[1..] == a[1..] + b;
      CountAppend(a[1..], b, x);
    }
  }

  lemma {:induction false} CountRepeat<T>(x: T, n: nat)
    ensures Count(Repeat(x, n), x) == n
    decreases n
  {
    if n > 0 {
      assert Repeat(x, n)[1..] == Repeat(x, n - 1);
      CountRepeat(x, n - 1);
    }
  }

  /** Each wait lies in `[b^n, b^n + 1)` for the retry number `n` it precedes,
      with `b = 3` after a 429 status and `b = 2` after an exception whose
      text mentions 429 (the only exceptions that are retried). */
  lemma WaitBounds(c: Call)
    requires forall k :: 0.0 <= c.jitter(k) < 1.0
    ensures var run := Attempt(c, 0);
      forall k :: 0 <= k < |run.waits| ==>
        var n := k + 1;
        var b := if c.transport(k).RateLimited? then 3 else 2;
        && (c.transport(k).RateLimited? || (c.transport(k).RequestError? && Contains(c.transport(k).message, "429")))
        && (Pow(b, n) as real) <= run.waits[k] < (Pow(b, n) as real) + 1.0
  {
    WaitSchedule(c, 0);
  }

  /** More than `max_retries` 429 statuses in a row: after exactly
      `max_retries` waits of `3^n` plus jitter, the call returns
      `(0, 0, "Rate limit exceeded after <max_retries> retries")`. */
  lemma RateLimitExhausted(c: Call)
    requires c.maxRetries >= 0
    requires forall k :: 0 <= k <= c.maxRetries ==> c.transport(k) == RateLimited
    ensures var run := Attempt(c, 0);
      && run.result == SearchResult(0, 0.0, Some(RateLimitMessage(c.maxRetries)))
      && |run.waits| == c.maxRetries
      && |run.requests| == c.maxRetries + 1
      && forall k :: 0 <= k < c.maxRetries ==> run.waits[k] == (Pow(3, k + 1) as real) + c.jitter(k)
  {
    assert Stops(c, c.maxRetries);
    EndsAt(c, c.maxRetries);
    RunResult(c, 0);
    RunShape(c, 0);
    WaitSchedule(c, 0);
  }

  /** An exception at the `k`-th request that does not mention 429 (or that
      comes when no retry is left) ends the call at once, with no further
      wait: `(0, 0, "API Error: <text>")`. */
  lemma FatalError(c: Call, k: nat, message: string)
    requires k <= c.maxRetries
    requires forall j :: 0 <= j < k ==> Retryable(c.transport(j))
    requires c.transport(k) == RequestError(message)
    requires !Contains(message, "429") || k == c.maxRetries
    ensures var run := Attempt(c, 0);
      && run.result == SearchResult(0, 0.0, Some(ApiErrorMessage(message)))
      && |run.waits| == k
      && |run.requests| == k + 1
  {
    forall j | 0 <= j < k ensures !Stops(c, j) {
      assert Retryable(c.transport(j));
    }
    EndsAt(c, k);
    RunResult(c, 0);
    RunShape(c, 0);
  }

  /** When the first `k + 1` outcomes are all retryable (a 429 status, or an
      exception whose text mentions 429) and a retry is still allowed after
      the `k`-th, the call waits after it and issues the `(k + 1)`-th count
      request; with jitter in `[0, 1)` that wait lies in `[b^(k+1), b^(k+1) + 1)`,
      `b = 3` for a 429 status and `b = 2` for an exception. */
  lemma RetriedAt(c: Call, k: nat)
    requires k + 1 <= c.maxRetries
    requires forall j :: 0 <= j <= k ==> Retryable(c.transport(j))
    requires forall j :: 0.0 <= c.jitter(j) < 1.0
    ensures var run := Attempt(c, 0);
      var b := if c.transport(k).RateLimited? then 3 else 2;
      && k < |run.waits|
      && k + 1 < |run.requests| && run.requests[k + 1] == CountRequest(c.query, c.year)
      && (Pow(b, k + 1) as real) <= run.waits[k] < (Pow(b, k + 1) as real) + 1.0
  {
    RunStopsAt(c, 0);
    assert EndIndex(c, 0) > k by {
      if EndIndex(c, 0) <= k {
        assert false;
      }
    }
    RunShape(c, 0);
    WaitSchedule(c, 0);
    assert BackoffWait(c, 0 + k, Attempt(c, 0).waits[k]);
  }

  /** A successful count response at the `k`-th request: the publication count
      is its `total` (0 when absent); the citation request is issued exactly
      when citations are asked for and the count is positive; without it the
      average is 0 and there is no message; when it fails the count is kept,
      the average is 0 and an advisory message is returned; otherwise the
      average is the sample mean. */
  lemma SucceedsAt(c: Call, k: nat, total: Option<int>)
    requires k <= c.maxRetries
    requires forall j :: 0 <= j < k ==> Retryable(c.transport(j))
    requires c.transport(k) == Found(total)
    ensures var run := Attempt(c, 0);
      var count := TotalOf(total);
      var sampled := c.includeCitations && count > 0;
      && run.result.publications == count
      && |run.waits| == k
      && |run.requests| == k + 1 + (if sampled then 1 else 0)
      && (sampled ==> run.requests[k + 1] == SampleRequest(c.query, c.year))
      && (!sampled ==> run.result.citationAvg == 0.0 && run.result.errorMsg == None)
      && (sampled && c.sample.SampleError? ==>
            run.result.citationAvg == 0.0
            && run.result.errorMsg == Some(AdvisoryMessage(c.sample.message)))
      && (sampled && c.sample.Sample? ==>
            run.result.citationAvg == MeanCitations(c.sample.data) && run.result.errorMsg == None)
  {
    forall j | 0 <= j < k ensures !Stops(c, j) {
      assert Retryable(c.transport(j));
    }
    EndsAt(c, k);
    RunResult(c, 0);
    RunShape(c, 0);
  }
}
