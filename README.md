# Weekly momentum stock screener — a Dafny model of the momentum calculation

The screener scrapes the S&P 500 symbol list, downloads a year of hourly closes for
every symbol, computes the relative price change ("momentum") over four fixed
lookbacks, keeps the symbols for which all four exist, ranks them by one-week change
and lets the user filter them by a one-month threshold. The same calculation appears
twice, line for line, in `streamlit_app.py` (the web dashboard) and `generate_csv.py`
(the batch script that writes the ranking to a CSV file). One model serves both:

| step | streamlit_app.py | generate_csv.py | Dafny |
|---|---|---|---|
| symbol normalisation `.` → `-` | 16 | 10 | `Tickers.Normalize`, `Tickers.NormalizeAll` |
| minimum history of 24*5 = 120 observations | 23-24 | 16-17 | `Momentum.CalculateMomentum` |
| `pct_change(hours)` | 26-32 | 19-25 | `Momentum.Target`, `Momentum.PctChange` |
| the record with keys 1H, 1W, 1M, 1Y | 34-40 | 27-33 | `Momentum.Record`, `Momentum.CalculateMomentum` |
| collecting the records in ticker order | 47-52 | 38-44 | `Screener.Present`, `Screener.GenerateMomentumData` |
| `pd.DataFrame(results).dropna()` | 54 | 46 | `Frames.DropMissing` |
| `sort_values('1W', ascending=False, inplace=True)` | 55 | 47 | `Frames.SortByWeekDescending` |
| `df[df["1M"] * 100 > threshold]` | 65 | — | `Frames.FilterByMonth` |

Files and modules:

- `wrappers.dfy` — `Wrappers`: `Option` (Python's `None`) and `Result` (a raised exception).
- `tickers.dfy` — `Tickers`: symbol normalisation.
- `momentum.dfy` — `Momentum`: observations, the `df.index <= target` filter, `pct_change`,
  the record and `calculate_momentum`, with the lemmas about lookbacks on a sorted series.
- `frames.dfy` — `Frames`: the table operations: `dropna()`, the in-place descending sort
  on an `array` (an insertion sort proved sorted and a permutation), and the threshold filter.
- `screener.dfy` — `Screener`: the driver loop that appends records and produces the ranked frame.

Modelling choices:

- A timestamp is a whole number of seconds and a lookback of `h` hours reaches back
  `h * 3600` seconds; the anchor `now` is the last observation's timestamp.
- Prices are `real`. The code divides by the reference close without any guard, so the
  model requires every close to be positive (`Momentum.Positive`) rather than inventing
  a zero-price guard. Under that requirement every present change is above -1.
- `PctChange` models the filter literally (`AtOrBefore` keeps, in order, every observation
  at or before the target; the reference is its last element). That the filter is a prefix
  and the reference is the most recent qualifying observation is proved for a strictly
  increasing index (`Momentum.Increasing`), which is what the downloaded index is.
- The download of the `i`-th normalised symbol is the input `downloads[i]`; `None` stands for a
  download that raised, which the bare `except` turns into "no record".
- When no symbol produced a record, `pd.DataFrame([])` has no `1W` column and the
  in-place sort raises `KeyError`; `GenerateMomentumData` returns
  `Failure(MissingColumn("1W"))` in exactly that case. A non-empty list whose records are
  all incomplete gives an empty frame, not an error.
- The code does not deduplicate symbols after normalisation (`Tickers.NormalizeMerges`
  shows two scraped symbols mapping to one), does not guard against a zero reference
  price, has no count-based (trading-day) lookback and does not break ties in the ranking.

## Model

| member | source | states |
|---|---|---|
| `Tickers.Normalize` | streamlit_app.py:16 | the normalised symbol has the same length, each `.` becomes `-` and every other character is unchanged in its place |
| `Tickers.NormalizeAll` | generate_csv.py:10 | the normalised list has the same length and order, position `i` holding the normalisation of symbol `i` |
| `Tickers.NormalizeRemovesDots` | streamlit_app.py:16 | no `.` is left in a normalised symbol |
| `Tickers.NormalizeIdempotent` | generate_csv.py:10 | normalising an already normalised symbol changes nothing |
| `Tickers.NormalizeMerges` | streamlit_app.py:12-16 | "BRK.B" and "BRK-B" both become "BRK-B", and normalising the list of both gives `["BRK-B", "BRK-B"]`: the rule is not injective and nothing deduplicates |
| `Momentum.Lookback.Hours` | streamlit_app.py:36-39 | every lookback (1, 24*7, 24*30, 24*365 hours) is at least one hour |
| `Momentum.AtOrBefore` | streamlit_app.py:29 | the filtered series is no longer than the series and every kept observation is at or before the target |
| `Momentum.AtOrBeforeMembers` | generate_csv.py:22 | an observation is kept by `df.index <= target` exactly when it is in the series and at or before the target |
| `Momentum.AtOrBeforeIsPrefix` | streamlit_app.py:29-31 | on a strictly increasing index the filter keeps a prefix: everything before its length is at or before the target, everything after is later |
| `Momentum.Target` | streamlit_app.py:28 | `now - timedelta(hours=h)` is never after the latest observation, and strictly before it for a lookback of an hour or more |
| `Momentum.PctChange` | streamlit_app.py:26-32 | the change is absent exactly when every observation is later than `now - hours`; a present change is above -1 |
| `Momentum.ChangeAboveMinusOne` | streamlit_app.py:31 | with both closes positive, `(latest - ref) / ref` exceeds -1 |
| `Momentum.PctChangeReference` | generate_csv.py:19-25 | on a sorted series the reference is the last observation at or before `now - hours` (all earlier ones qualify, all later ones do not), it precedes the latest observation for a lookback of an hour or more, and a present change equals `(latest - ref) / ref` |
| `Momentum.LongerLookbackIsPrefix` | streamlit_app.py:28-30 | for a longer lookback the qualifying observations are a prefix of those of a shorter one, its reference index is no later, and if it is present so is the shorter one |
| `Momentum.CalculateMomentum` | streamlit_app.py:19-42 | a record exists exactly when the download succeeded with at least 120 observations; it carries the input ticker and, for each of 1H, 1W, 1M and 1Y, the change at 1, 168, 720 and 8760 hours |
| `Momentum.RecordReferencesPrecedeLatest` | streamlit_app.py:34-40 | in a record from a sorted series each lookback's reference lies strictly before the latest observation, and a present value is `(latest - ref) / ref` for that reference |
| `Momentum.RecordLookbacksNest` | generate_csv.py:27-33 | within a record a present 1Y implies a present 1M, which implies 1W, which implies 1H |
| `Frames.Complete` | streamlit_app.py:54 | a record survives `dropna()` exactly when all four lookbacks are present, and the row keeps its ticker and all four values (1H, 1W, 1M, 1Y) |
| `Frames.DropMissing` | generate_csv.py:46 | `dropna()` never adds rows |
| `Frames.CompleteIndices` | generate_csv.py:46 | the positions of the records `dropna()` keeps increase, lie in the list and are exactly the complete records |
| `Frames.DropMissingKeepsOrder` | streamlit_app.py:54 | `dropna()` yields one row per complete record, in record order, so two records completing to the same row give two rows |
| `Frames.DropMissingMembers` | streamlit_app.py:54 | a row is in the frame after `dropna()` exactly when some record completes to it |
| `Frames.SwapLeft` | streamlit_app.py:55 | swapping the row being inserted with a smaller left neighbour keeps the rows other than it in order and it larger than every row to its right |
| `Frames.InsertDone` | streamlit_app.py:55 | once the inserted row's left neighbour is no smaller, the rows up to it are in non-increasing 1W order |
| `Frames.InsertDescending` | streamlit_app.py:55 | one step of the sort: the first `i + 1` rows end up in non-increasing one-week order, the rows after `i` stay where they were, and the rows are a permutation of the old ones |
| `Frames.SortByWeekDescending` | generate_csv.py:47 | the in-place sort leaves the frame in non-increasing 1W order and a permutation of the frame before it |
| `Frames.FilterByMonth` | streamlit_app.py:65 | every kept row passes the strict test `1M * 100 > threshold`, and no rows are added |
| `Frames.MonthAbove` | streamlit_app.py:65 | the mask `1M * 100 > threshold` holds exactly when the one-month ratio exceeds the threshold percentage divided by 100 |
| `Frames.FilterByMonthMembers` | streamlit_app.py:65 | a row is in the filtered frame exactly when it is in the frame and `1M * 100 > threshold` |
| `Frames.KeptIndices` | streamlit_app.py:65 | the positions selected by the boolean mask increase, lie in the frame and are exactly the positions whose row passes |
| `Frames.FilterByMonthKeepsOrder` | streamlit_app.py:65 | the filtered frame is the input read at strictly increasing positions, and those positions are exactly the rows that pass |
| `Frames.FilterByMonthKeepsWeekOrder` | streamlit_app.py:55-65 | filtering the ranked frame keeps it in non-increasing 1W order |
| `Screener.Outcomes` | generate_csv.py:39-41 | there is one calculation outcome per ticker |
| `Screener.Present` | generate_csv.py:42-43 | the loop collects no more records than there are tickers |
| `Screener.PresentStep` | generate_csv.py:41-43 | unfolding of the collection one ticker at a time: handling one more ticker appends its record when the calculation returned one and nothing otherwise |
| `Screener.SomeIndices` | streamlit_app.py:51-52 | the positions of the tickers whose calculation returned a record increase and are exactly those positions |
| `Screener.PresentKeepsOrder` | generate_csv.py:42-43 | each returned record is appended exactly once, in ticker order: the collected list is the outcomes read at those positions |
| `Screener.PresentMembers` | streamlit_app.py:51-52 | a record is appended exactly when some ticker's calculation returned it |
| `Screener.Produced` | streamlit_app.py:47-52 | the `results` list has no more records than there are tickers, and every record's ticker is one of the tickers |
| `Screener.ProducedOnePerTicker` | streamlit_app.py:47-52 | each iteration appends at most one record: the `k`-th record is what the calculation returned for the ticker at a position that strictly increases with `k`, so no ticker position contributes twice, and the record carries that ticker |
| `Screener.ProducedMembers` | streamlit_app.py:47-52 | the collected records are exactly the records the calculation returns for some ticker |
| `Screener.RowsAreCompleteRecords` | generate_csv.py:38-46 | a row is in the output frame exactly when some ticker's record has all four lookbacks and becomes that row |
| `Screener.RankFrame` | generate_csv.py:46-47 | building the frame from no records fails on the missing `1W` column; otherwise the result is in non-increasing 1W order and a permutation of the rows that survive `dropna()` |
| `Screener.GenerateMomentumData` | streamlit_app.py:45-56 | over the normalised symbol column, the sort fails with a missing `1W` column exactly when no record was produced; otherwise the frame is in non-increasing 1W order and is a permutation of the complete records' rows |

## Left out

- Scraping the symbol table (`pd.read_html`) and downloading prices (`yf.download`): network I/O and library calls; their results are inputs: `scraped`, the raw symbol column, which `GenerateMomentumData` normalises with `NormalizeAll` before its loop, and `downloads`, one per normalised ticker.
- The Streamlit interface (`st.set_page_config`, `st.title`, `st.text`, `st.dataframe`, `st.slider`, `st.markdown`) and the slider's -50..100 range; the threshold is any integer.
- The second, display-only sort at streamlit_app.py:61 and `reset_index`: presentation of the already sorted frame.
- `@st.cache_data` memoisation, `time.sleep(0.2)` rate limiting, the progress `print`/`st.text` messages and `df.to_csv` file output.
- The bare `except: return None`: only the failure of the download is modelled, as a `None` download; other library failures are not.
- `.dropna()` on the downloaded Close column, multi-column Close frames and time zones: the downloaded series is a NaN-free sequence of (seconds, close) pairs.
- Floating point: prices and changes are exact reals, so rounding, infinities and NaN do not arise.
- `Momentum.PctChange`: requires positive closes, because the code divides by the reference close with no zero guard and the model does not invent one.
- `Frames.SortByWeekDescending`: the order among rows with equal 1W change is not specified, as pandas' default sort is not stable; any order satisfying the contract is possible.
- `streamlit_app[1].py`, which reads the CSV back and repeats the display sort and threshold filter, is not part of this model beyond `Frames.FilterByMonth`.
