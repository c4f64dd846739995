# APT28 sample fetcher: a verified model of the pagination loop

The APT28 analysis script downloads malware-sample metadata tagged `APT28`
from the MalwareBazaar API. It does this one page at a time. It keeps
requesting pages until it has the requested total, a page comes back empty,
or a request fails. Then it cuts the collected list to the total.

This project models that loop, `fetch_all_apt28_samples`, in Dafny and
proves what it promises.

- The HTTP call is an oracle, `Server<S> = (int, int) -> Response<S>`. It maps
  the posted page number and limit to one of four outcomes: `Ok(data)`,
  `HttpError`, `ConnectionError` or `RequestError`. A page that has no `data`
  key reads as `Ok([])`. Samples are an opaque type parameter `S`.
- A function of (page, limit) loses no generality for a single call. The
  loop never posts the same page twice, so any behaviour of a changing
  server during one run is some such function.
- `Fetcher.FetchAllApt28Samples` is the loop itself: a `while` loop over the
  accumulator `allSamples` and the cursor `page`, with `break` on an empty
  page and on each of the three failures. It also returns a ghost log of
  every (request, response) exchange.
- The method is proved equal to a recursive specification,
  `Fetcher.Exchanges` / `Trace` / `FetchAll`. One turn of `Exchanges` is
  built from three parts: `NextExchange` (the request of APT28.py:12-22, with
  its limit `min(limit_per_page, total - len(all_samples))`), `Continues`
  (the `break` decisions of APT28.py:26-27 and 31-39) and `Gained` (what
  `extend` adds at APT28.py:29). What they mean over a whole run is proved
  in `FetchGuarantees`: the limit in `RequestsAskForRemainingQuota`, when the
  loop goes on in `PageCursorAdvancesByOne` and `StopResponseEndsLoop`, and
  what each page adds in `Fetcher.ReceivedAppend` and
  `ResultIsReceivedCutToQuota`.
- `FetcherProperties.WellFormed` describes a valid log position by position,
  with quantifiers over the exchanges rather than by unfolding the loop. It
  is proved equivalent to the specification in both directions. It shares
  two building blocks with the specification: the one-step formula
  `NextExchange` and the prefix count `Accumulated` (which is
  `|Received(ex[..i])|`).
- `FetchGuarantees` proves the loop's promises: request sizes, page numbering,
  stop conditions, truncation, the bound on the number of requests, and that
  the three failure kinds are handled alike.
- `FetchScenarios` works through concrete runs against scripted servers.

The source's default arguments `limit_per_page=100` and
`total_entries=10000` are the method's default parameters.
`Fetcher.FetchForMain` is the call `main` makes, with `total_entries=1000`
and the default page size.

Python's `all_samples[:total_entries]` is modelled exactly by
`Fetcher.SliceTo`, including a negative bound. A negative bound only ever
meets the empty list, because with `total_entries <= 0` the loop never runs.
`limit_per_page` and `total_entries` are unconstrained integers, as in the
source. The loop still terminates, because every page that lets it continue
adds at least one sample.

The inline comment at APT28.py:41 says the function returns "exactly
total_entries". The code returns fewer when an empty page or a failure stops
the loop early. The model follows the code:
`FetchGuarantees.ResultIsReceivedCutToQuota` states exactly when the result
is short.

## Model

| member | source | states |
|---|---|---|
| `Fetcher.Min` | APT28.py:15 | Python's `min`: the result is at most both arguments and equals one of them |
| `Fetcher.ReceivedAppend` | APT28.py:29 | what two consecutive stretches of the log receive joins in order: `extend` appends without reordering or dropping |
| `Fetcher.LogContinues` | APT28.py:26-30 | a turn that gets a non-empty page logs one exchange, appends that page's data, and leaves the rest of the run to start from the new count and the next page |
| `Fetcher.LogStops` | APT28.py:26-39 | a turn that gets an empty page or a failure logs one last exchange, which adds nothing, and nothing follows it |
| `Fetcher.SliceTo` | APT28.py:41 | Python's `s[:n]`: the result is a prefix of `s`; it has `min(n, len(s))` elements for `n >= 0`, and drops the last `-n` elements (or everything) for `n < 0` |
| `Fetcher.Exchanges` | APT28.py:11-30 | the loop from a given state sends at least one more request exactly when the accumulated count is below the total (the `while` condition) |
| `Fetcher.Trace` | APT28.py:9-16 | a call sends no request at all exactly when `total_entries <= 0` |
| `Fetcher.FetchAll` | APT28.py:41 | the result is empty when `total_entries <= 0` and never longer than `total_entries` |
| `Fetcher.FetchAllApt28Samples` | APT28.py:5-41 | with the source's defaults (100 per page, 10000 in total), the loop posts exactly the requests of `Trace` (ghost log) and returns `FetchAll`: all pages received, in order, cut to the total |
| `Fetcher.FetchForMain` | APT28.py:46 | `main`'s call with `total_entries=1000` and the default page size of 100 returns `FetchAll(server, 100, 1000)`, at most 1000 samples |
| `FetcherProperties.AccumulatedIsReceived` | APT28.py:11-29 | the count before exchange `i` is the length of what the first `i` exchanges received, i.e. `len(all_samples)` at that point |
| `FetcherProperties.ExchangesBelowTotal` | APT28.py:11 | every request of the specification's log is sent while fewer than `total_entries` samples are accumulated |
| `FetcherProperties.ExchangesAsRequested` | APT28.py:9-30 | request `i` of the specification's log carries page `page + i` and the limit `min(limit_per_page, total - accumulated)`, and its response is the server's answer to it |
| `FetcherProperties.ExchangesContinueBeforeLast` | APT28.py:26-39 | every exchange of the specification's log except the last brought a non-empty page |
| `FetcherProperties.ExchangesEndProperly` | APT28.py:11-39 | the specification's log is empty only when the total is already reached, and ends on a non-empty page only when that page completed the total |
| `FetcherProperties.ExchangesWellFormed` | APT28.py:11-39 | the specification's log is well formed: each request is sent while the count is below the total, has the next page and the capped limit, every exchange but the last brought a non-empty page, and the log ends on an empty page, a failure or the total reached |
| `FetcherProperties.WellFormedUnique` | APT28.py:11-39 | a well-formed log from a given state is the specification's log: the loop's behaviour is determined by the server's answers |
| `FetcherProperties.TraceCharacterized` | APT28.py:8-39 | a log is the log of a call if and only if it is well formed from zero samples and page 1 |
| `FetchGuarantees.RequestsAskForRemainingQuota` | APT28.py:11-15 | every request's limit is `min(limit_per_page, total - accumulated)`; the remaining quota is positive when it is sent; the limit never exceeds it; the response is the server's answer to that request |
| `FetchGuarantees.PageCursorAdvancesByOne` | APT28.py:9-30 | the `i`-th request carries page `i + 1`; each request but the last got a non-empty page; no page is requested twice |
| `FetchGuarantees.StopResponseEndsLoop` | APT28.py:26-39 | a response that is not a non-empty page is the last exchange; it adds nothing; the call returns exactly what had been accumulated before it, which is below the total |
| `FetchGuarantees.EmptyPageEndsLoop` | APT28.py:26-27 | an empty page is the last exchange and the call returns what was accumulated before it |
| `FetchGuarantees.FailureEndsLoop` | APT28.py:31-39 | an HTTP, connection or other request failure is the last exchange (no retry) and the call returns what was accumulated before it |
| `FetchGuarantees.ResultIsReceivedCutToQuota` | APT28.py:29-41 | the result is a prefix of the concatenated pages in request order; for a positive total it has exactly `total_entries` samples if and only if the loop ended on a non-empty page; otherwise it is everything received, uncut |
| `FetchGuarantees.TirelessServerFillsQuota` | APT28.py:11-41 | if every response is a non-empty page, a call with `total_entries >= 0` returns exactly `total_entries` samples |
| `FetchGuarantees.NonEmptyRunFillsQuota` | APT28.py:11-41 | if every response a run actually gets is a non-empty page, a call with `total_entries >= 0` returns exactly `total_entries` samples |
| `FetchGuarantees.RequestsBoundedByQuota` | APT28.py:11-30 | termination: from `count` accumulated samples at most `total - count` requests are sent |
| `FetchGuarantees.FailureKindsHandledAlike` | APT28.py:31-39 | servers that differ only in which failure they report lead to the same requests and the same samples |
| `FetchScenarios.TwoFullPagesLog` | APT28.py:11-30 | total 250, pages of 100, server answers 100, 100, then an empty page: the log is exactly (page 1, limit 100), (page 2, limit 100), (page 3, limit 50) with those answers |
| `FetchScenarios.TwoFullPagesReceived` | APT28.py:29-30 | in that run the received samples are the two full pages concatenated in order |
| `FetchScenarios.TwoFullPagesThenEmpty` | APT28.py:11-30 | total 250, pages of 100, server answers 100, 100, then an empty page: limits 100, 100, 50; three requests; 200 samples returned |
| `FetchScenarios.OnePageFillsQuota` | APT28.py:11-41 | total 3 and a first page of 3: one request with limit 3, three samples |
| `FetchScenarios.ConnectionErrorFirst` | APT28.py:34-41 | a connection error on the first request: one request, empty result |
| `FetchScenarios.OversizedPageIsCut` | APT28.py:29-41 | the server sends 5 samples when 3 were asked for: one request, and the result is cut to the first 3 |

## Left out

- The HTTP POST itself is not modelled, and neither are its form fields `query` and `tag`, the `API-KEY` header, the fixed URL, `raise_for_status`, JSON decoding or the 15-second timeout (APT28.py:6-24). They are network I/O. The oracle `Server` stands for all of them.
- A `data` key that is absent, or present with the value `null`, makes `not samples` true, so the loop breaks just as on an empty page (APT28.py:24-27). The oracle's `Ok([])` covers both cases.
- A `data` value that is not a list but is non-empty (a string or an object, which `extend` would iterate character by character or key by key) is not modelled. Neither is a JSON body that is not an object. The oracle only returns sequences of samples.
- An exception outside the three `requests` failure classes is not modelled. Such an exception would escape the function.
- The console messages on the three failures (APT28.py:32, 35, 38) are not modelled. They are output only.
- `main` is modelled only as far as its call of the fetcher (APT28.py:46). The rest of it (APT28.py:48-88) is not modelled: the DataFrame construction, `pd.to_datetime` parsing, grouping and counting, matplotlib charts, Excel export and the final messages. They are thin calls into pandas and matplotlib, whose source is not part of this model, plus file I/O.
- The hard-coded API key and URL are not modelled. They are configuration constants.
