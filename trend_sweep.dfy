/** The API search tab: parse the topics, check the year range, then query
    every (topic, year) pair in turn, collecting one record per pair and one
    message per pair whose query reported an error.

    The query executor, the courtesy delays and the progress display are
    abstracted: `exec(k, query, year, includeCitations)` is what the `k`-th
    call of `search_semantic_scholar` returns, and `uniform(k)` is the
    `random.random()` behind the `k`-th `random.uniform(min_delay, max_delay)`. */
module TrendSweep {
  import opened Wrappers
  import opened PyStr
  import opened Upload
  import opened SemanticScholar

  /** What the `k`-th call `search_semantic_scholar(query, year, include_citations)`
      returns. */
  type Executor = (nat, string, int, bool) -> SearchResult

  datatype Pair = Pair(topic: string, year: int)

  /** One result row; `averageCitations` is present exactly when the row has
      an "Average Citations" key. */
  datatype Record = Record(topic: string, year: int, publications: int, averageCitations: Option<real>)

  /** What a press of the Search button leads to. */
  datatype SearchOutcome =
    | NotSubmitted                     // the topics box is empty
    | InvalidYears(message: string)    // rejected before any request
    | Swept(results: seq<Record>, errors: seq<string>, calls: seq<Pair>, delays: seq<real>)

  const YearRangeMessage: string := "Start year must be less than or equal to end year."

  /** `[line.strip() for line in lines if line.strip()]`. */
  function KeepStripped(lines: seq<string>): seq<string>
    decreases |lines|
  {
    if lines == [] then []
    else (if Strip(lines[0]) != "" then [Strip(lines[0])] else []) + KeepStripped(lines[1..])
  }

  /** The topic list typed into the text area, one topic per line. */
  function ParseTopics(text: string): seq<string> {
    KeepStripped(Split(text, '\n'))
  }

  lemma {:induction false} KeepStrippedAppend(a: seq<string>, b: seq<string>)
    ensures KeepStripped(a + b) == KeepStripped(a) + KeepStripped(b)
    decreases |a|
  {
    if a == [] {
      assert a + b == b;
    } else {
      assert (a + b)[0] == a[0];
      assert (a + b)[1..] == a[1..] + b;
      KeepStrippedAppend(a[1..], b);
    }
  }

  lemma {:induction false} KeepStrippedMembers(lines: seq<string>, t: string)
    ensures t in KeepStripped(lines) <==> t != "" && exists k :: 0 <= k < |lines| && Strip(lines[k]) == t
    decreases |lines|
  {
    if lines != [] {
      KeepStrippedMembers(lines[1..], t);
      if exists k :: 0 <= k < |lines[1..]| && Strip(lines[1..][k]) == t {
        var k :| 0 <= k < |lines[1..]| && Strip(lines[1..][k]) == t;
        assert Strip(lines[k + 1]) == t;
      }
      if exists k :: 0 <= k < |lines| && Strip(lines[k]) == t {
        var k :| 0 <= k < |lines| && Strip(lines[k]) == t;
        if k > 0 {
          assert Strip(lines[1..][k - 1]) == t;
        }
      }
    }
  }

  /** Topics keep the order of their lines: the topics of two blocks of text
      joined by a newline are those of the first block, then those of the
      second. */
  lemma ParseTopicsAround(a: string, b: string)
    ensures ParseTopics(a + "\n" + b) == ParseTopics(a) + ParseTopics(b)
  {
    SplitAround(a, '\n', b);
    KeepStrippedAppend(Split(a, '\n'), Split(b, '\n'));
  }

  /** A single line gives its stripped text as a topic, unless that is empty. */
  lemma ParseTopicsLine(line: string)
    requires '\n' !in line
    ensures ParseTopics(line) == if Strip(line) == "" then [] else [Strip(line)]
  {
    SplitNoSeparator(line, '\n');
    assert KeepStripped([line]) == (if Strip(line) != "" then [Strip(line)] else []) + KeepStripped([]);
  }

  /** The topics are exactly the non-empty stripped lines, and each is
      non-empty, free of surrounding whitespace and of newlines. */
  lemma ParseTopicsMembers(text: string, t: string)
    ensures t in ParseTopics(text) <==>
      t != "" && exists k :: 0 <= k < |Split(text, '\n')| && Strip(Split(text, '\n')[k]) == t
    ensures t in ParseTopics(text) ==> Strip(t) == t && '\n' !in t
  {
    var lines := Split(text, '\n');
    KeepStrippedMembers(lines, t);
    if t in ParseTopics(text) {
      var k :| 0 <= k < |lines| && Strip(lines[k]) == t;
      StripIdempotent(lines[k]);
      StripSubset(lines[k], '\n');
    }
  }

  /** `list(range(start, end + 1))`. */
  function Years(start: int, end: int): (ys: seq<int>)
    ensures |ys| == if start <= end then end - start + 1 else 0
    ensures forall k :: 0 <= k < |ys| ==> ys[k] == start + k
    decreases end - start
  {
    if start > end then [] else [start] + Years(start + 1, end)
  }

  /** The pairs of one topic with each year, in year order. */
  function Row(topic: string, years: seq<int>): (r: seq<Pair>)
    ensures |r| == |years| && forall k :: 0 <= k < |years| ==> r[k] == Pair(topic, years[k])
  {
    seq(|years|, k requires 0 <= k < |years| => Pair(topic, years[k]))
  }

  /** The pairs in the order the nested loops visit them: topic by topic,
      and within a topic year by year. */
  function Pairs(topics: seq<string>, years: seq<int>): seq<Pair>
    decreases |topics|
  {
    if topics == [] then []
    else Pairs(topics[..|topics| - 1], years) + Row(topics[|topics| - 1], years)
  }

  /** There is one pair per (topic, year). */
  lemma {:induction false} PairsLength(topics: seq<string>, years: seq<int>)
    ensures |Pairs(topics, years)| == |topics| * |years|
    decreases |topics|
  {
    if topics != [] {
      PairsLength(topics[..|topics| - 1], years);
      assert |topics| * |years| == (|topics| - 1) * |years| + |years|;
    }
  }

  /** The pair of the `i`-th topic with the `j`-th year comes at position
      `i * |years| + j`: topic-major, years in their order. */
  lemma {:induction false} PairAt(topics: seq<string>, years: seq<int>, i: nat, j: nat)
    requires i < |topics| && j < |years|
    ensures i * |years| + j < |topics| * |years|
    ensures i * |years| + j < |Pairs(topics, years)|
    ensures Pairs(topics, years)[i * |years| + j] == Pair(topics[i], years[j])
    decreases |topics|
  {
    var n := |topics| - 1;
    var init := topics[..n];
    PairsLength(topics, years);
    PairsLength(init, years);
    MultiplyBound(i, j, |topics|, |years|);
    if i < n {
      assert init[i] == topics[i];
      PairAt(init, years, i, j);
    }
  }

  lemma MultiplyBound(i: nat, j: nat, m: nat, n: nat)
    requires i < m && j < n
    ensures i * n + j < m * n
  {
    assert i * n + n <= m * n by {
      assert (i + 1) * n <= m * n;
    }
  }

  /** The record appended for one pair. */
  function ToRecord(p: Pair, r: SearchResult, includeCitations: bool): Record {
    Record(p.topic, p.year, r.publications, if includeCitations then Some(r.citationAvg) else None)
  }

  /** The column names of a record, in the order its keys are inserted. */
  function Columns(r: Record): seq<string> {
    ["Topic", "Year", "Publications"] + (if r.averageCitations.Some? then ["Average Citations"] else [])
  }

  /** `if error_msg:` -- a message that is present and non-empty. */
  predicate Reports(r: SearchResult) {
    r.errorMsg.Some? && r.errorMsg.value != ""
  }

  function ErrorLine(p: Pair, message: string): string {
    "Error for '" + p.topic + "' in " + IntToString(p.year) + ": " + message
  }

  /** The error list after the calls for `pairs`, the `k`-th pair being the
      `k`-th call. */
  function ErrorLines(pairs: seq<Pair>, exec: Executor, includeCitations: bool): (lines: seq<string>)
    ensures |lines| <= |pairs|
    decreases |pairs|
  {
    if pairs == [] then []
    else
      var k := |pairs| - 1;
      var r := exec(k, pairs[k].topic, pairs[k].year, includeCitations);
      ErrorLines(pairs[..k], exec, includeCitations)
        + (if Reports(r) then [ErrorLine(pairs[k], r.errorMsg.value)] else [])
  }

  /** The calls that reported an error. */
  function Failed(pairs: seq<Pair>, exec: Executor, includeCitations: bool): set<nat> {
    set k: nat | k < |pairs| && Reports(exec(k, pairs[k].topic, pairs[k].year, includeCitations))
  }

  /** The calls for `pairs` that reported an error are those for the pairs
      before the last one, and the last one if it did. */
  lemma FailedSnoc(pairs: seq<Pair>, exec: Executor, includeCitations: bool)
    requires pairs != []
    ensures var n := |pairs| - 1;
      Failed(pairs, exec, includeCitations)
      == Failed(pairs[..n], exec, includeCitations)
         + (if Reports(exec(n, pairs[n].topic, pairs[n].year, includeCitations)) then {n} else {})
  {
    var n := |pairs| - 1;
    var init := pairs[..n];
    forall k: nat | k < n ensures init[k] == pairs[k] { }
  }

  /** There are as many error lines as calls that reported an error. */
  lemma {:induction false} ErrorLinesCount(pairs: seq<Pair>, exec: Executor, includeCitations: bool)
    ensures |ErrorLines(pairs, exec, includeCitations)| == |Failed(pairs, exec, includeCitations)|
    decreases |pairs|
  {
    if pairs != [] {
      var n := |pairs| - 1;
      ErrorLinesCount(pairs[..n], exec, includeCitations);
      FailedSnoc(pairs, exec, includeCitations);
      assert n !in Failed(pairs[..n], exec, includeCitations);
    }
  }

  function LineOf(pairs: seq<Pair>, exec: Executor, includeCitations: bool, k: nat): string
    requires k < |pairs| && Reports(exec(k, pairs[k].topic, pairs[k].year, includeCitations))
  {
    ErrorLine(pairs[k], exec(k, pairs[k].topic, pairs[k].year, includeCitations).errorMsg.value)
  }

  /** Each call that reported an error has its line in the error list, and
      every line in it is the line of one such call. */
  lemma {:induction false} ErrorLinesExact(pairs: seq<Pair>, exec: Executor, includeCitations: bool)
    ensures forall k :: k in Failed(pairs, exec, includeCitations) ==>
      LineOf(pairs, exec, includeCitations, k) in ErrorLines(pairs, exec, includeCitations)
    ensures forall e :: e in ErrorLines(pairs, exec, includeCitations) ==>
      exists k :: k in Failed(pairs, exec, includeCitations) && e == LineOf(pairs, exec, includeCitations, k)
    decreases |pairs|
  {
    if pairs != [] {
      var n := |pairs| - 1;
      var init := pairs[..n];
      ErrorLinesExact(init, exec, includeCitations);
      FailedSnoc(pairs, exec, includeCitations);
      var lines := ErrorLines(pairs, exec, includeCitations);
      var before := ErrorLines(init, exec, includeCitations);
      forall k | k in Failed(pairs, exec, includeCitations)
        ensures LineOf(pairs, exec, includeCitations, k) in lines
      {
        if k < n {
          assert init[k] == pairs[k];
          assert LineOf(init, exec, includeCitations, k) in before;
        }
      }
      forall e | e in lines
        ensures exists k :: k in Failed(pairs, exec, includeCitations) && e == LineOf(pairs, exec, includeCitations, k)
      {
        if e in before {
          var k :| k in Failed(init, exec, includeCitations) && e == LineOf(init, exec, includeCitations, k);
          assert init[k] == pairs[k];
          assert e == LineOf(pairs, exec, includeCitations, k);
        } else {
          assert e == LineOf(pairs, exec, includeCitations, n);
        }
      }
    }
  }

  /** The delay drawn before the `k`-th call:
      `random.uniform(min_delay, max_delay)`. */
  function Delay(minDelay: int, maxDelay: int, uniform: nat -> real, k: nat): real {
    minDelay as real + ((maxDelay - minDelay) as real) * uniform(k)
  }

  /** The bookkeeping after the calls for `calls`: the `k`-th call drew the
      `k`-th delay and produced the `k`-th record, and the error list holds
      one line per call that reported an error, in call order. */
  predicate Accounts(results: seq<Record>, errors: seq<string>, calls: seq<Pair>, delays: seq<real>,
                     exec: Executor, includeCitations: bool, minDelay: int, maxDelay: int, uniform: nat -> real)
  {
    && |results| == |calls| && |delays| == |calls|
    && (forall k :: 0 <= k < |calls| ==>
          results[k] == ToRecord(calls[k], exec(k, calls[k].topic, calls[k].year, includeCitations), includeCitations))
    && (forall k :: 0 <= k < |calls| ==> delays[k] == Delay(minDelay, maxDelay, uniform, k))
    && errors == ErrorLines(calls, exec, includeCitations)
  }

  /** One more call keeps the bookkeeping exact. */
  lemma AccountsStep(results: seq<Record>, errors: seq<string>, calls: seq<Pair>, delays: seq<real>,
                     exec: Executor, includeCitations: bool, minDelay: int, maxDelay: int, uniform: nat -> real,
                     p: Pair)
    requires Accounts(results, errors, calls, delays, exec, includeCitations, minDelay, maxDelay, uniform)
    ensures var k := |calls|;
      var r := exec(k, p.topic, p.year, includeCitations);
      Accounts(results + [ToRecord(p, r, includeCitations)],
               errors + (if Reports(r) then [ErrorLine(p, r.errorMsg.value)] else []),
               calls + [p], delays + [Delay(minDelay, maxDelay, uniform, k)],
               exec, includeCitations, minDelay, maxDelay, uniform)
  {
    assert (calls + [p])[..|calls|] == calls;
  }

  /** The inner loop for one topic: for each year in turn, draw a delay,
      call the executor, record the result and log its error, if any. */
  method SweepTopic(topic: string, years: seq<int>, includeCitations: bool,
                    minDelay: int, maxDelay: int, exec: Executor, uniform: nat -> real,
                    results0: seq<Record>, errors0: seq<string>, calls0: seq<Pair>, delays0: seq<real>)
    returns (results: seq<Record>, errors: seq<string>, calls: seq<Pair>, delays: seq<real>)
    requires Accounts(results0, errors0, calls0, delays0, exec, includeCitations, minDelay, maxDelay, uniform)
    ensures calls == calls0 + Row(topic, years)
    ensures Accounts(results, errors, calls, delays, exec, includeCitations, minDelay, maxDelay, uniform)
  {
    results, errors, calls, delays := results0, errors0, calls0, delays0;
    var j := 0;
    while j < |years|
      invariant 0 <= j <= |years|
      invariant calls == calls0 + Row(topic, years[..j])
      invariant Accounts(results, errors, calls, delays, exec, includeCitations, minDelay, maxDelay, uniform)
    {
      var year := years[j];
      var query := topic;
      var k := |calls|;
      var delay := minDelay as real + ((maxDelay - minDelay) as real) * uniform(k);
      assert delay == Delay(minDelay, maxDelay, uniform, k);
      var r := exec(k, query, year, includeCitations);
      AccountsStep(results, errors, calls, delays, exec, includeCitations, minDelay, maxDelay, uniform,
                   Pair(topic, year));
      ghost var resultsBefore, errorsBefore, delaysBefore := results, errors, delays;
      delays := delays + [delay];
      calls := calls + [Pair(topic, year)];
      if r.errorMsg.Some? && r.errorMsg.value != "" {
        errors := errors + [ErrorLine(Pair(topic, year), r.errorMsg.value)];
      }
      var averageCitations := if includeCitations then Some(r.citationAvg) else None;
      results := results + [Record(topic, year, r.publications, averageCitations)];
      assert results == resultsBefore + [ToRecord(Pair(topic, year), r, includeCitations)];
      assert errors == errorsBefore + (if Reports(r) then [ErrorLine(Pair(topic, year), r.errorMsg.value)] else []);
      assert delays == delaysBefore + [Delay(minDelay, maxDelay, uniform, k)];
      assert Row(topic, years[..j + 1]) == Row(topic, years[..j]) + [Pair(topic, year)];
      j := j + 1;
    }
    assert years[..j] == years;
  }

  /** The search tab after Search is pressed: nothing without topic text,
      a validation error and no request for an empty year range, and
      otherwise one delay, one executor call and one record per
      (topic, year) pair, topic-major with years ascending, plus one error
      line per call that reported an error. */
  method TrendSearch(topicsText: string, startYear: int, endYear: int, includeCitations: bool,
                     minDelay: int, maxDelay: int, exec: Executor, uniform: nat -> real)
    returns (outcome: SearchOutcome)
    ensures topicsText == "" ==> outcome == NotSubmitted
    ensures topicsText != "" && startYear > endYear ==> outcome == InvalidYears(YearRangeMessage)
    ensures topicsText != "" && startYear <= endYear ==>
      && outcome.Swept?
      && outcome.calls == Pairs(ParseTopics(topicsText), Years(startYear, endYear))
      && Accounts(outcome.results, outcome.errors, outcome.calls, outcome.delays,
                  exec, includeCitations, minDelay, maxDelay, uniform)
  {
    if topicsText == "" {
      return NotSubmitted;
    }
    var topicList := ParseTopics(topicsText);
    if startYear > endYear {
      return InvalidYears(YearRangeMessage);
    }
    var years := Years(startYear, endYear);
    var results: seq<Record> := [];
    var errors: seq<string> := [];
    var calls: seq<Pair> := [];
    var delays: seq<real> := [];
    var i := 0;
    while i < |topicList|
      invariant 0 <= i <= |topicList|
      invariant calls == Pairs(topicList[..i], years)
      invariant Accounts(results, errors, calls, delays, exec, includeCitations, minDelay, maxDelay, uniform)
    {
      results, errors, calls, delays :=
        SweepTopic(topicList[i], years, includeCitations, minDelay, maxDelay, exec, uniform,
                   results, errors, calls, delays);
      assert topicList[..i + 1][..i] == topicList[..i];
      i := i + 1;
    }
    assert topicList[..i] == topicList;
    return Swept(results, errors, calls, delays);
  }

  /** The sweep's executor built from the search model: the `k`-th call runs
      `search_semantic_scholar` with the default `max_retries` against that
      call's own transport, citation response and jitter. */
  function SearchExecutor(transports: nat -> nat -> Response, samples: nat -> SampleResponse,
                          jitters: nat -> nat -> real): Executor
  {
    (k: nat, query: string, year: int, includeCitations: bool) =>
      Attempt(Call(query, year, includeCitations, DefaultMaxRetries, transports(k), samples(k), jitters(k)), 0).result
  }

  /** With the search model as executor, no call ends with "Max retries
      exceeded", and a call adds an error line exactly when it returns a
      message. */
  lemma SearchExecutorMessages(transports: nat -> nat -> Response, samples: nat -> SampleResponse,
                               jitters: nat -> nat -> real, k: nat, query: string, year: int,
                               includeCitations: bool)
    ensures var r := SearchExecutor(transports, samples, jitters)(k, query, year, includeCitations);
      && r.errorMsg != Some(MaxRetriesMessage)
      && (Reports(r) <==> r.errorMsg.Some?)
  {
    var c := Call(query, year, includeCitations, DefaultMaxRetries, transports(k), samples(k), jitters(k));
    RetryBounds(c);
    MessagesNonEmpty(c, 0);
  }

  /** Every record has the three required columns, and the
      "Average Citations" column exactly when citations were asked for. */
  lemma RecordColumns(p: Pair, r: SearchResult, includeCitations: bool)
    ensures var rec := ToRecord(p, r, includeCitations);
      && rec.topic == p.topic && rec.year == p.year && rec.publications == r.publications
      && ("Average Citations" in Columns(rec) <==> includeCitations)
      && HasRequiredColumns(Columns(rec))
  {
    var cols := Columns(ToRecord(p, r, includeCitations));
    assert cols[0] == "Topic" && cols[1] == "Year" && cols[2] == "Publications";
    if includeCitations {
      assert cols[3] == "Average Citations";
    } else {
      assert cols == ["Topic", "Year", "Publications"];
      assert "Average Citations"[0] == 'A';
    }
  }

  /** One record per (topic, year) pair, in order: the pair at position
      `i * |years| + j` is the `i`-th topic with the `j`-th year,
      `startYear + j`. */
  lemma SweptRecords(topics: seq<string>, startYear: int, endYear: int, i: nat, j: nat)
    requires startYear <= endYear
    requires i < |topics| && j <= endYear - startYear
    ensures var years := Years(startYear, endYear);
      var pairs := Pairs(topics, years);
      && |pairs| == |topics| * (endYear - startYear + 1)
      && i * |years| + j < |pairs|
      && pairs[i * |years| + j] == Pair(topics[i], startYear + j)
  {
    var years := Years(startYear, endYear);
    PairsLength(topics, years);
    PairAt(topics, years, i, j);
  }
}
