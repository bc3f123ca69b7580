# Semantic Scholar publication trends: the logic under the UI

`search_query.py` is a Streamlit app. It counts the Semantic Scholar
publications on a list of research topics, year by year, and plots the
trends. It can also take the same table as an uploaded CSV file. This project
models the sequential logic under the UI and proves what it does:

- **`search_semantic_scholar`** (`search.dfy`, module `SemanticScholar`). It
  issues one publication-count query. On a 429 status, or on a request
  exception whose text mentions 429, it retries with jittered exponential
  backoff: `3^n` after a status, `2^n` after an exception. After a
  successful count it can issue one more request that samples citation
  counts. The network, the clock and the random generator are parameters:
  - `transport(k)` is the outcome of the `k`-th count request;
  - `sample` is the outcome of the citation request;
  - `jitter(k)` is the `k`-th `random.uniform(0, 1)`.

  The method returns the requests it issued and the waits it would sleep.
  It is proved equal to the retry state machine `Attempt`, and every
  property below is proved about `Attempt`.
- **The citation mean** (`citations.dfy`, module `Citations`): the mean of
  `citationCount` over the sampled papers, with a missing count read as 0.
- **`build_query`** (`query_builder.dfy`, module `QueryBuilder`): the
  field-prefixed query string.
- **The API search tab** (`trend_sweep.dfy`, module `TrendSweep`). It
  parses the topic text area and checks the year range. Then it sweeps
  every (topic, year) pair in two nested loops, accumulating records,
  error lines and delays. `exec(k, query, year, includeCitations)` is the
  result of the `k`-th call of `search_semantic_scholar`. `uniform(k)` is the
  draw behind the `k`-th `random.uniform(min_delay, max_delay)`.
- **The upload check** (`upload.dfy`, module `Upload`): the required column
  names.
- `py_str.dfy` (module `PyStr`) defines the Python string operations used
  above: `str.strip()` with Python's whitespace set, `str.split` on one
  character, `str.join`, `in` on strings, and `str()` of an integer.

## Model

| member | source | states |
|---|---|---|
| QueryBuilder.BuildQuery | search_query.py:120-135 | with no field flag the query is the topic unchanged; otherwise it is the selected prefixed terms, in title/abstract/keywords order, joined by " OR " |
| QueryBuilder.SelectedTermsExact | search_query.py:123-128 | a field's `title:`/`abstract:`/`keywords:` term is among the query parts exactly when that field's flag is set |
| QueryBuilder.AllFieldsQuery | search_query.py:120-135 | with all three flags set the query is `title:T OR abstract:T OR keywords:T` |
| QueryBuilder.QueryMentionsSelectedFields | search_query.py:120-135 | the query contains the prefixed term of every selected field |
| SemanticScholar.CountRequest | search_query.py:141-146 | the count request's parameters: the query, `str(year)`, a limit of 1 and the field `year` |
| SemanticScholar.SampleRequest | search_query.py:183-188 | the citation request's parameters: the query, `str(year)`, a limit of 100 and the field `citationCount` |
| SemanticScholar.TotalOf | search_query.py:175 | `data.get('total', 0)`: the `total` key's value, or 0 when the key is absent |
| SemanticScholar.RateLimitMessage | search_query.py:162 | `"Rate limit exceeded after <max_retries> retries"` |
| SemanticScholar.ApiErrorMessage | search_query.py:206 | `"API Error: <exception text>"` |
| SemanticScholar.AdvisoryMessage | search_query.py:199 | `"Got publication count but couldn't retrieve citation data: <exception text>"` |
| SemanticScholar.Retryable | search_query.py:159-205 | an outcome is retried when it is a 429 status, or a request exception whose text contains "429"; any other exception is not |
| SemanticScholar.WaitAfter | search_query.py:165-209 | the wait after the `k`-th count request is `3^(k+1)` after a 429 status and `2^(k+1)` after an exception, plus that wait's jitter; `k + 1` is `retry_count` after its increment |
| SemanticScholar.Complete | search_query.py:172-201 | the success branch: the count is `data.get('total', 0)`; with citations on and a positive count, one citation request, whose failure gives average 0 and the advisory message and whose answer gives the sample mean; otherwise no request, average 0 and no message |
| SemanticScholar.Attempt | search_query.py:153-213 | the loop from a given `retry_count`: past `max_retries` the trailing "Max retries exceeded" result; otherwise one count request, then the success branch, or the rate-limit message, or the API-error message when the incremented count is past `max_retries` or the exception lacks "429", or else one wait and the loop again from the incremented count |
| SemanticScholar.SearchSemanticScholar | search_query.py:138-213 | the returned triple, the requests issued and the waits slept are exactly those of the retry state machine started with `retry_count = 0` |
| SemanticScholar.RunShape | search_query.py:153-211 | all requests but a possible last one are identical count requests, one more than the waits; the extra one is the citation request, issued only with citations on and a positive count; "Max retries exceeded" never comes out once the loop is entered |
| SemanticScholar.WaitSchedule | search_query.py:159-168 | bases 3 and 2: the `k`-th wait follows the `k`-th count request, whose outcome was retryable, and equals `base^(k+1)` plus the `k`-th jitter |
| SemanticScholar.RunStopsAt | search_query.py:153-211 | a call returns at the first count request that is a success, a non-retryable failure or the last one allowed; it lies within `max_retries`, and every earlier one was retried |
| SemanticScholar.RunResult | search_query.py:158-211 | the result is decided by the outcome the call returns at: the rate-limit message, the API-error message, or the success branch after all the count requests |
| SemanticScholar.EndsAt | search_query.py:153-211 | when requests 0..t-1 are retried and request t stops the loop, exactly t waits are slept |
| SemanticScholar.RetryBounds | search_query.py:153-213 | with `max_retries >= 0`: at most `max_retries + 1` count requests and at most `max_retries` waits, and the line-213 "Max retries exceeded" is unreachable; with a negative `max_retries` no request is made and that message is the result |
| SemanticScholar.WaitBounds | search_query.py:159-211 | with jitter in `[0, 1)` every wait before retry `n` lies in `[3^n, 3^n + 1)` after a 429 status and in `[2^n, 2^n + 1)` after an exception, and only outcomes that are 429 statuses or exceptions mentioning 429 are waited on |
| SemanticScholar.RateLimitExhausted | search_query.py:159-163 | more than `max_retries` 429 statuses in a row give `(0, 0, "Rate limit exceeded after <max_retries> retries")` after exactly `max_retries` waits of `3^n` plus jitter and `max_retries + 1` requests |
| SemanticScholar.FatalError | search_query.py:203-206 | an exception without "429" in its text, or one that comes when no retry is left, returns `(0, 0, "API Error: <text>")` at once, with no wait after it |
| SemanticScholar.RetriedAt | search_query.py:203-211 | an exception mentioning 429, or a 429 status, with a retry still allowed is followed by a wait in `[b^n, b^n + 1)` and by the next count request |
| SemanticScholar.SucceedsAt | search_query.py:172-201 | on success the count is `data.get('total', 0)`; the citation request is issued exactly when citations are on and the count is positive; otherwise the average is 0 with no message; a failed citation request keeps the count, gives average 0 and sets the advisory message; a successful one gives the sample mean |
| SemanticScholar.MessagesNonEmpty | search_query.py:153-213 | every message the function returns is non-empty, so a caller's `if error_msg:` sees every one |
| Citations.CountOf | search_query.py:196 | `paper.get('citationCount', 0)`: the paper's count, or 0 when it has none |
| Citations.SumCounts | search_query.py:196 | the sum of the papers' counts, a missing count read as 0 |
| Citations.MeanCitations | search_query.py:193-196 | the average for a citation response: 0 when `data` is absent or the list is empty, otherwise the sum of counts over the number of papers |
| Citations.MeanBounds | search_query.py:193-196 | the mean of a non-empty sample lies between the smallest and the largest citation count |
| Citations.MeanTimesSize | search_query.py:196 | the mean times the sample size is the sum of the counts |
| Citations.SumCountsAppend | search_query.py:196 | the sum of counts over two concatenated samples is the sum of the two sums |
| Citations.SumCountsBounds | search_query.py:196 | counts in `[lo, hi]` give a sum in `[n*lo, n*hi]` |
| Citations.MissingCountsAverageZero | search_query.py:193-196 | papers that all lack `citationCount` average to 0, as an absent or empty list does |
| TrendSweep.KeepStripped | search_query.py:310 | the comprehension over lines: the stripped lines in order, dropping those that strip to the empty string |
| TrendSweep.ParseTopics | search_query.py:310 | the topic list: the text split on `'\n'`, then each piece stripped and the empty ones dropped |
| TrendSweep.ParseTopicsMembers | search_query.py:310 | the topics are exactly the non-empty stripped lines; each is its own strip and has no newline |
| TrendSweep.ParseTopicsAround | search_query.py:310 | the topics keep line order: the topics of `a + "\n" + b` are those of `a`, then those of `b` |
| TrendSweep.ParseTopicsLine | search_query.py:310 | a single line gives its stripped text as a topic, or nothing when that is empty |
| TrendSweep.KeepStrippedMembers | search_query.py:310 | a string is kept exactly when it is non-empty and is the strip of some line |
| TrendSweep.KeepStrippedAppend | search_query.py:310 | filtering a concatenation of line lists is the concatenation of the filtered lists |
| TrendSweep.Years | search_query.py:315 | `range(start, end + 1)`: `end - start + 1` years, the `k`-th being `start + k`, and none when `start > end` |
| TrendSweep.Pairs | search_query.py:339-340 | the (topic, year) pairs in the order the nested loops visit them: topic by topic, and within a topic year by year |
| TrendSweep.PairsLength | search_query.py:336-340 | the nested loops visit `len(topic_list) * len(years)` pairs |
| TrendSweep.PairAt | search_query.py:339-340 | the pair at position `i * len(years) + j` is the `i`-th topic with the `j`-th year: topic-major, years ascending |
| TrendSweep.SweptRecords | search_query.py:315-367 | with a valid range there is one pair per (topic, year), `len(topic_list) * (end_year - start_year + 1)` in all, and the one at `i * len(years) + j` is topic `i` with year `start_year + j` |
| TrendSweep.ToRecord | search_query.py:358-365 | the record for a pair and its call's result: topic, year and count, plus the average exactly when citations are on |
| TrendSweep.Columns | search_query.py:358-365 | a record's keys in insertion order: `Topic`, `Year`, `Publications`, then `Average Citations` when present |
| TrendSweep.RecordColumns | search_query.py:358-365 | every record carries its pair's topic and year and the call's count; it has the "Average Citations" key exactly when citations are on; its columns pass the upload check |
| TrendSweep.Reports | search_query.py:353 | `if error_msg:`: the message is present and non-empty |
| TrendSweep.ErrorLine | search_query.py:354 | `"Error for '<topic>' in <year>: <message>"` |
| TrendSweep.ErrorLines | search_query.py:353-354 | the error list after a run of calls: one line per call whose message is present and non-empty, in call order, the `k`-th pair being the `k`-th call |
| TrendSweep.Failed | search_query.py:353 | the indexes of the calls whose message is present and non-empty |
| TrendSweep.ErrorLinesCount | search_query.py:353-354 | there are as many error lines as calls that returned a non-empty message |
| TrendSweep.ErrorLinesExact | search_query.py:353-354 | every call that returned a message has its `Error for '<topic>' in <year>: <message>` line, and every line comes from such a call |
| TrendSweep.Delay | search_query.py:348 | `random.uniform(min_delay, max_delay)` for the draw `u` of the `k`-th call: `min_delay + (max_delay - min_delay) * u` |
| TrendSweep.Accounts | search_query.py:348-367 | the sweep's bookkeeping after a run of calls: the `k`-th call drew the `k`-th delay and produced the `k`-th record, and the error list is that of the calls |
| TrendSweep.AccountsStep | search_query.py:348-367 | one more call appends one delay, one record and, when its message is non-empty, one error line, and keeps the bookkeeping exact |
| TrendSweep.SweepTopic | search_query.py:340-370 | the year loop for one topic appends one pair per year, in year order, and keeps the bookkeeping exact |
| TrendSweep.TrendSearch | search_query.py:309-371 | empty topic text: nothing happens; `start_year > end_year`: the range message, no call and no record; otherwise the calls are the (topic, year) pairs topic-major, and the `k`-th call draws the `k`-th delay and produces the `k`-th record, with one error line per call that returned a message, in call order |
| TrendSweep.SearchExecutor | search_query.py:351 | the executor the sweep uses: the `k`-th call runs the search model with the default `max_retries` of 3 against that call's own transport, citation response and jitter |
| TrendSweep.SearchExecutorMessages | search_query.py:351-354 | with that executor no call ends with "Max retries exceeded", and a call adds an error line exactly when it returns a message |
| Upload.HasRequiredColumns | search_query.py:106-107 | the upload is accepted exactly when `Topic`, `Year` and `Publications` are all among its column names |
| Upload.AllPresent | search_query.py:107 | `all(col in columns for col in required)` holds exactly when every required name is a column |
| Upload.ColumnOrderIrrelevant | search_query.py:106-107 | reordering the columns does not change the verdict |
| Upload.ExtraColumnsAccepted | search_query.py:106-107 | adding columns to an accepted table keeps it accepted |
| Upload.MissingColumnRejected | search_query.py:106-107 | a table missing any required column is rejected |
| PyStr.Strip | search_query.py:310 | `str.strip()`: the string without its leading and trailing characters from Python's whitespace set |
| PyStr.StripSpec | search_query.py:310 | `strip()` returns a slice between a whitespace-only prefix and suffix, with non-space ends, empty exactly when the line is all whitespace |
| PyStr.StripIdempotent | search_query.py:310 | stripping twice is stripping once |
| PyStr.StripOfTrimmed | search_query.py:310 | a string without surrounding whitespace is its own strip |
| PyStr.StripSubset | search_query.py:310 | a stripped line has no character the line did not have |
| PyStr.Join | search_query.py:135 | `sep.join(parts)`: empty for no parts, the part itself for one, otherwise the parts with `sep` between each two |
| PyStr.Split | search_query.py:310 | `split('\n')` gives at least one piece, and no piece contains the separator |
| PyStr.JoinSplit | search_query.py:310 | joining the pieces of a split with the separator gives back the text |
| PyStr.SplitJoin | search_query.py:310 | splitting a join of separator-free parts gives back the parts |
| PyStr.SplitNoSeparator | search_query.py:310 | text without the separator splits into itself alone |
| PyStr.SplitAround | search_query.py:310 | splitting distributes over one occurrence of the separator |
| PyStr.Contains | search_query.py:205 | `sub in s` on strings: `sub` is a prefix of `s` or of one of its suffixes |
| PyStr.ContainsAt | search_query.py:205 | `"429" in text` holds exactly when "429" occurs at some position of the text |
| PyStr.ContainsInfix | search_query.py:205 | a string contains each of its infixes |
| PyStr.ContainsSuffix | search_query.py:205 | what a suffix contains, the whole string contains |
| PyStr.JoinContainsParts | search_query.py:135 | every part of a join occurs in the joined string |
| PyStr.IntToString | search_query.py:143 | `str(n)` for an integer: the decimal digits of its magnitude, preceded by `-` when it is negative |
| PyStr.NatToString | search_query.py:143 | `str(year)` for a natural number is a non-empty run of decimal digits, with a leading `0` only for 0 |
| PyStr.NatToStringValue | search_query.py:143 | reading the digits of `str(n)` back gives `n` |

## Left out

- The Streamlit UI is not modelled: forms, tabs, sliders, `st.warning`/`st.error`/`st.info` output, session state, the sidebar, the progress bar and status text, the cap of five errors shown during the sweep, and the error summary after it. The same goes for the debug `print` of the query.
- `TrendSearch` models a press of the Search button. The `submitted` flag is not an input; only the emptiness test on the topic text is modelled.
- HTTP through `requests`, JSON decoding and the endpoint are replaced by abstract outcomes. A count response is a 429 status, a body with an optional integer `total`, or a request exception with its text. A citation response is an optional list of papers with optional integer counts, or the text of any exception.
- A JSON body that is not an object is not modelled. `data.get` then raises an exception that the function does not catch.
- A `total` other than an integer (null, a float, a string) is not modelled, because the model's count is always an integer. With citations on, a null or a string makes the test `total > 0` at line 179 raise an exception that the function does not catch. With citations off, the `and` stops before that test. The function then returns the value unchanged, for instance `(None, 0, None)`, and the sweep stores it as the record's `Publications`. The model has no such path.
- A `citationCount` that is null or not a number is not modelled either. It raises inside the citation `try`, so the source reports the advisory message instead of a mean.
- `time.sleep` and `random.uniform` are inputs: waits and delays are returned instead of slept. `random.uniform(a, b)` is modelled as `a + (b - a) * u`, with the draw `u` as an input.
- Floating point is not modelled. Means, waits and delays are exact reals, and the integer `0` the source returns for the average is `0.0`.
- `SearchSemanticScholar` is defined for every `max_retries`; the sweep always calls it with the default 3. The sweep's executor is an abstract function of the call index and the arguments. `SearchExecutor` builds one from the search model with that default, and `SearchExecutorMessages` states what the sweep then sees. `TrendSearch` itself is proved for any executor.
- `build_query` is modelled on its own, because the sweep does not call it: the query of every call is the topic itself.
- pandas is not modelled: reading and writing CSV, building the DataFrame, and the `Year` column coercion. The upload check works on the list of column names.
- `create_plot`, `display_visualizations` and the plotly figures are not modelled; they are charting configuration.
- `SweepTopic` is the inner year loop of the sweep, split out as its own method. The `current_iteration` counter is the length of the call list, which it always equals.
