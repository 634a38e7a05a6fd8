# Shenzhen Airlines fare monitor — a Dafny model

The monitor loads a PushPlus token, a flight number and a search URL, drives a browser to the
airline's search page, finds the lowest fare shown for the flight and sends one PushPlus
notification about the outcome. A scheduler runs it at every `:00` and `:30`.

This project models the decision logic of that program and proves what it promises:

- `config.dfy` covers `load_config`. The environment wins, and the local file only fills gaps and
  only outside CI. An unreadable file fails the run. The checks run in a fixed order, and the
  token may not be a sample value.
- `text.dfy` and `decimal.dfy` model the Python string operations the extraction uses:
  `strip()`, `split()[0]`, `replace()`, and `\n` → `<br>`. They also model `float()` on plain
  decimal text, read as an exact `real`.
- `price.dfy` covers `parse_price`. The page is an abstract document: an optional container, an
  optional table, rows, and per row an optional flight number and its fare cells. The row scan
  and the fare loop are methods, proved equal to a specification function. The lemmas show that
  a returned price is the least fare of the first matching row that has fare cells, and they
  state exactly when each failure is reported.
- `navigation.dfy` covers the navigation retry loop over a sequence of per-attempt outcomes.
- `notify.dfy` covers `send_notification`'s token check and reply classification. It also
  covers `main`'s choice of title, template and body.
- `monitor.dfy` covers one run of `main`, composed from the above.
- `schedule.dfy` covers the scheduler's next half-hour boundary and the wait until it.

The comment at scheduler.py:61 says the scheduler waits at least one second. The clamp at
scheduler.py:60-61 replaces only a non-positive wait, and that never occurs, because the next run
always lies strictly after now:

- at `hh:29:59.5` the wait stays 0.5 seconds;
- at exactly `hh:30:00` the minute is not below 30, so the next run is the next hour's `:00`,
  1800 seconds away.

`WaitIsExactDistance`, `SubSecondWaitKept` and `AtHalfPastWaitsFullHalfHour` state this behaviour.

## Model

| member | source | states |
|---|---|---|
| `Text.TrimStartShape` | monitor.py:255 | `lstrip` keeps a suffix, drops only whitespace (Python's `isspace` set), stops at a non-space and leaves whitespace-free text unchanged |
| `Text.TrimEndShape` | monitor.py:255 | the mirror property for `rstrip` |
| `Text.StripShape` | monitor.py:245 | `strip()` leaves no whitespace at either end, keeps only characters of its input, and is the identity on whitespace-free text |
| `Text.StripPadded` | monitor.py:245 | stripping removes any whitespace padding around a text with non-space ends, giving back exactly that text |
| `Text.TakeWord` | monitor.py:257 | the longest whitespace-free prefix: a prefix, space-free, ended by whitespace or the end of the text |
| `Text.FirstField` | monitor.py:257 | `split()[0]` or `""`: space-free, empty exactly when the text is all whitespace, drawn from the input |
| `Text.FieldAfterSpace` | monitor.py:257 | after a run of whitespace, the longest whitespace-free prefix of the rest is a field |
| `Text.FirstFieldIsFirst` | monitor.py:257 | the result is the first field: only whitespace precedes it, and whitespace or the end of the text follows it |
| `Text.Remove` | monitor.py:256 | `replace(c, '')` leaves no `c` and never lengthens the text |
| `Text.RemoveAppend` | monitor.py:256 | removal distributes over concatenation, so the kept characters stay in order and each is kept once |
| `Text.RemoveAbsent` | monitor.py:256 | a text without `c` is left unchanged |
| `Text.RemoveDrawsFromInput` | monitor.py:256 | `replace(c, '')` adds no character |
| `Text.RemoveKeeps` | monitor.py:256 | `replace(c, '')` keeps every character other than `c` |
| `Text.NewlinesToBreaks` | monitor.py:322 | `replace('\n', '<br>')` leaves no newline and never shortens the text |
| `Text.NewlinesToBreaksNoop` | monitor.py:322 | a text without a newline is left unchanged |
| `Text.NewlinesToBreaksKeeps` | monitor.py:322 | `replace('\n', '<br>')` keeps every character other than the newline |
| `Text.NewlinesToBreaksAppend` | monitor.py:320-322 | the replacement distributes over concatenation |
| `Decimal.ParseDecimal` | monitor.py:258 | `float()` on the cleaned text yields a non-negative exact value or fails |
| `Decimal.ParseDecimalAccepts` | monitor.py:258 | parsing succeeds exactly on digits with at most one point and at least one digit |
| `Decimal.NatTextValue` | monitor.py:258 | a natural number's decimal digits denote that number |
| `Decimal.ParseNatText` | monitor.py:258 | a whole fare such as "980" reads back as its value |
| `Decimal.ParseCentsText` | monitor.py:258 | a two-decimal amount such as "1234.50" reads back exactly (the form `:.2f` prints at monitor.py:316) |
| `Price.PriceOutcome.ToOption` | monitor.py:225-274 | `parse_price` returns a value exactly for the price outcome, and then that amount; `None` for every failure |
| `Price.CleanPriceText` | monitor.py:255-257 | the cleaned fare text has no whitespace, no `￥`, no `¥` and no comma |
| `Price.HasYenSign` | monitor.py:254-264 | the text shows a yen sign exactly when some character is `￥` or `¥` |
| `Price.FareText` | monitor.py:253-264 | the visible `F22 notHover` text is used whenever it shows a yen sign, even if it then fails to parse; the hover span is tried only otherwise |
| `Price.CellPrice` | monitor.py:253-269 | a fare a cell yields is the parse of its cleaned fare text, and is non-negative |
| `Price.CellFareIsParsedText` | monitor.py:253-269 | a cell without fare text yields no fare; with one, its fare is exactly whatever the parse of the cleaned text gives, a value or none |
| `Price.MinOf` | monitor.py:258 | `min` with `inf` as the start: the smaller of the two, absent only when both are |
| `Price.LeastIsMinimum` | monitor.py:252-269 | the running minimum is absent exactly when no cell yields a fare, else it is a fare some cell yields and no larger than any |
| `Price.LeastIff` | monitor.py:252-274 | the running minimum is `v` exactly when `v` is one of the fares and below no other |
| `Price.LowestFare` | monitor.py:251-269 | the cell loop leaves the running minimum of the row's fares |
| `Price.Matches` | monitor.py:242-245 | a row matches only when it has a flight-number text |
| `Price.PaddedTargetNeverMatches` | monitor.py:245 | a target with whitespace at either end matches no row, since the stripped text never has any |
| `Price.FirstPricedIff` | monitor.py:241-249 | the row that ends the scan is the unique first row that matches and has fare cells |
| `Price.Extract` | monitor.py:225-237 | empty HTML, a missing container, a missing table and an empty row list each give their failure |
| `Price.ParsePrice` | monitor.py:223-274 | `parse_price` returns the outcome `Extract` specifies |
| `Price.ScanStopsAt` | monitor.py:247-271 | when row `i` is the first that matches and has cells, the scan's outcome is that row's least fare, or no valid price |
| `Price.ScanRows` | monitor.py:239-273 | the row loop with its found flag, `continue` and `break` gives the outcome `ScanOutcome` specifies |
| `Price.FlightNotFoundIffNoMatch` | monitor.py:241-272 | "flight not found" exactly when no row's stripped flight number equals the target |
| `Price.PriceIsFirstPricedRowMinimum` | monitor.py:241-274 | a price `v` is returned exactly when `v` is the least fare of the first matching row that has fare cells |
| `Price.NoValidPriceMeaning` | monitor.py:248-273 | "no valid price" exactly when a row matches and either no matching row has cells or no cell of the first such row parses |
| `Price.LaterRowsIgnored` | monitor.py:248-271 | after the first matching row with cells, later rows, duplicates included, never change the result |
| `Price.CleanSignedFare` | monitor.py:254-257 | a yen sign and a plain amount with whitespace around are cleaned to exactly the amount |
| `Price.CleanSignedAmount` | monitor.py:254-257 | a yen sign and a space-free amount with whitespace around are cleaned to the amount with every comma removed |
| `Price.CleanGroupedFare` | monitor.py:256 | a thousands separator is dropped: a sign and `high,low` clean to `high` followed by `low` |
| `Price.GroupedFareCell` | monitor.py:253-258 | a visible cell showing a sign and a thousands-grouped amount yields the value of the joined digit groups |
| `Price.GroupedFareExample` | monitor.py:253-258 | a cell showing "￥1,234.50" yields 1234.5 |
| `Price.SignedCentsCell` | monitor.py:253-258 | a visible cell showing `¥` or `￥` and a two-decimal amount yields exactly that amount, whatever the hover text |
| `Price.MatchesPadded` | monitor.py:245 | whitespace around the flight-number text does not prevent a match |
| `Price.MatchesExactly` | monitor.py:245 | a whitespace-free flight number matches only the identical target: no prefix, suffix or containment match |
| `Config.Fill` | monitor.py:53-55 | each value is the environment's when that is non-empty, else the file's |
| `Config.Merged` | monitor.py:49-57 | the file is consulted only outside CI and only when it exists; an unreadable file is the only failure; a read file fills the gaps |
| `Config.Or` | monitor.py:53-55 | Python `or`: the first value if it is non-empty, else the second |
| `Config.Validate` | monitor.py:62-67 | succeeds exactly when all three values are non-empty and the token is no sample value, returning those values |
| `Config.Resolve` | monitor.py:44-67 | a resolved configuration has three non-empty values and a non-sample token |
| `Config.LoadConfig` | monitor.py:42-70 | building the `config` dictionary in place gives the result `Resolve` specifies |
| `Config.ResolveSucceedsIff` | monitor.py:49-67 | a configuration comes back exactly when the file (if consulted) was read and the merged values pass the checks |
| `Config.ChecksInOrder` | monitor.py:49-67 | each error is reported exactly when its own check fails and every earlier check passed |
| `Config.EnvironmentWins` | monitor.py:45-55 | a non-empty environment value is always the one used |
| `Config.FileOnlyFillsGaps` | monitor.py:49-55 | a file value is used only for a missing or empty environment value, only outside CI and only from a file that was read |
| `Config.CiIgnoresFile` | monitor.py:49 | in GitHub Actions the file is never consulted |
| `Config.UnreadableFileFails` | monitor.py:51-57 | outside CI an unreadable file fails the run even with a complete environment |
| `Navigation.NavigateWithRetries` | monitor.py:143-176 | at most `maxRetries + 1` attempts; success exactly when an ok response comes within them; it stops at the first ok response; one pause between consecutive attempts |
| `Notify.Send` | monitor.py:276-293 | no request for an empty or sample token; code 200 delivered, 903 token rejected, any other code an API error, no reply a failure |
| `Notify.Compose` | monitor.py:312-327 | Markdown exactly for a found price; HTML bodies contain no newline |
| `Notify.Decide` | monitor.py:305-327 | a notification goes out exactly when the token is valid, and there is at most one |
| `Notify.TitlesDistinguishOutcomes` | monitor.py:315-324 | the three titles differ and each begins with "深航 " and the flight number |
| `Notify.ComposeTitle` | monitor.py:312-327 | the title is "价格更新", "查询失败" or "抓取失败" exactly for a price, a failed extraction or a failed fetch |
| `Notify.FailureBodyNotice` | monitor.py:310-327 | a failure body is its text in HTML line breaks, followed by the screenshot notice exactly when the run is local |
| `Notify.NoticeAsHtml` | monitor.py:310-322 | the screenshot notice becomes `<br><br>**请查看截图: debug_screenshot.png**` in an HTML body |
| `Monitor.Fetch` | monitor.py:143-176 | the page is handed on only when an ok response came within the attempts; otherwise there is no HTML |
| `Monitor.OutcomeOf` | monitor.py:312-324 | no HTML or empty HTML is a fetch failure, and nothing else is |
| `Monitor.LoadedTokenIsValid` | monitor.py:305 | a configuration `load_config` accepts always has a valid token |
| `Monitor.RunMonitor` | monitor.py:296-327 | a run sends nothing when configuration fails, otherwise exactly one message, for the outcome of fetch and extraction |
| `Monitor.NavigationFailureReported` | monitor.py:323-327 | a navigation that never got an ok response is reported as a fetch failure |
| `Monitor.PriceReportedIff` | monitor.py:312-315 | a price `v` is reported exactly when extraction from the fetched page gives `v` |
| `Monitor.NoPriceReportedAsQueryFailure` | monitor.py:312-320 | a fetched page without an extracted price is reported as a failed query, and only then |
| `Schedule.NextRun` | scheduler.py:53-56 | the next run is a valid time at minute 0 or 30 with second and microsecond 0 |
| `Schedule.HalfHourSplit` | scheduler.py:53-56 | `now` lies inside a half hour and the next run is the end of that half hour |
| `Schedule.NextRunWithinHalfHour` | scheduler.py:53-59 | the next run is strictly after now and at most 30 minutes after it |
| `Schedule.NextRunIsNextBoundary` | scheduler.py:53-56 | the next run is `(floor(now / 30 min) + 1) * 30 min` |
| `Schedule.NextRunIsEarliest` | scheduler.py:53-56 | no half-hour boundary lies strictly between now and the next run |
| `Schedule.WaitSeconds` | scheduler.py:59-61 | the wait is always positive |
| `Schedule.WaitIsExactDistance` | scheduler.py:59-61 | the wait is the exact distance to the next run, in (0, 1800] seconds; the clamp never fires |
| `Schedule.AtHalfPastWaitsFullHalfHour` | scheduler.py:53-61 | at exactly `hh:30:00.000000` the next run is the next hour's `:00` and the wait is 1800 seconds |
| `Schedule.LateEveningRollsOver` | scheduler.py:56 | from 23:30 on, the next run is midnight of the following day |
| `Schedule.SubSecondWaitKept` | scheduler.py:59-61 | at `hh:29:59.5` the wait is 0.5 seconds, not raised to one |

## Left out

- Browser driving in `fetch_html_with_playwright` is not modelled: the launch, the context headers, the landing-page visit and its pause, cookies, console capture, the selector waits, screenshots and closing. This is foreign asynchronous I/O. What the fetch returns after a successful navigation is an input of `Monitor.RunMonitor`.
- HTML parsing and CSS-class matching are not modelled. The page is the abstract document in `price.dfy`. A row without `td.flightInfoForm` and a row without `div.F20` are skipped alike, so both are a row with no flight number.
- Decimal.ParseDecimal: accepts only unsigned decimal text, with digits and at most one point. Python's `float()` also accepts signs, exponents, underscores, `inf` and `nan`. On such text the model reports an unparseable cell where Python would read a value. The fares on the page are plain amounts.
- Decimal.ParseDecimal: accepts only the ASCII digits `0`-`9`. Python's `float()` also reads other Unicode decimal digits, such as fullwidth `１２３`, which the model reports as unparseable.
- Fares are exact `real`s. Binary floating-point rounding of `float()` and of `min` is not modelled.
- Schedule.WaitSeconds: the wait is an exact `real` number of seconds. `total_seconds()` returns a binary float, whose rounding is not modelled.
- The `:.2f` rendering of the price and the time text in the success body are not modelled. They are inputs to `Notify.Compose`.
- The HTTP POST, `raise_for_status` and JSON decoding of the reply are not modelled. `Notify.Send` takes the reply as an input: a failure, or a code that may be absent.
- All logging is left out, including the log-only `elif` branch of `load_config` (monitor.py:58-60) and the log line in `main` that drops the screenshot notice (monitor.py:321, 326).
- `os.environ`, the `GITHUB_ACTIONS` flag, file existence and JSON reading of `config.local.json` are inputs. Config.Resolve: a file value is a string or absent. JSON numbers, lists or objects under the three keys are not modelled. A file whose top level is not an object counts as unreadable.
- In the navigation loop, the `response` kept from an earlier attempt is not modelled. It only feeds a log message. Exceptions other than Playwright errors end the fetch with no HTML, which the page input's `None` covers.
- The scheduler's `while True` loop, `asyncio.sleep` and the `run_monitor` subprocess are not modelled. Time zones and DST of `datetime.now()` are left out too, as are calendar months: a date is an ordinal day number.
