# SMA respect evaluator

A Dafny model of the core of the "SMA Respect Analyzer", a small Streamlit
application that downloads price candles for a list of equity symbols and
reports, per symbol, which simple-moving-average (SMA) periods the price has
"respected continuously": no candle ever lay entirely below the average.

The core is two Python functions in `streamlit_app.py`:

- `get_sma` takes the `Close` column and applies pandas' `rolling(window=p).mean()`.
  At index `i` this is the mean of the closes at `i-p+1 .. i`, and NaN while
  fewer than `p` closes are available.
- `check_continuous_respect_sma` walks through the period list (by default
  `[34, 50, 55, 89, 100, 144, 200, 233]`). For each period it scans the
  candles in order and stops at the first candle whose open, high, low and
  close are all strictly below that index's SMA. It returns the periods whose
  scan found no such candle, in list order.

Files:

- `options.dfy` (`Options`): `Option`. Here `None` stands for NaN.
- `candles.dfy` (`Candles`): the `Candle` record, `Series`, and the close column.
- `sma.dfy` (`MovingAverage`): `Sma`, the mean-of-window reference definition,
  and `RollingMean`, a running-sum method proved equal to it.
- `respect.dfy` (`Respect`): the NaN-aware comparison `Below`, `Violates`,
  `Respected`, and the functional result `RespectedPeriods`. It also holds the
  two nested loops `RespectsContinuously` and `CheckContinuousRespectSma`. They
  are written with the early `break` and are proved equal to the functional
  definitions.
- `respect_properties.dfy` (`RespectProperties`): what `check_continuous_respect_sma` promises.
  This covers vacuous respect, strictness, order preservation, independence
  between periods, monotonicity under appended candles, and worked examples.

NaN semantics. Python's `x < NaN` is always `False`. The model writes this as
`Below(x, m) = m.Some? && x < m.value`. A candle at an index with no SMA
therefore never rejects a period. This is how a series shorter than the
period, or an empty one, ends up respecting it.

Three facts about the code shape the model:

- It computes no touch count. It returns only the respected periods, in list
  order, and drops the others without a record. The model does the same.
- Its scan starts at index 0, where long-period SMAs are still NaN. Every
  comparison with NaN is false, so this gives the same verdict as a scan of
  only the indices where the SMA is defined
  (`RespectedIffNoViolationAtDefinedIndex`).
- It accepts an empty series and then returns every period
  (`EmptySeriesKeepsList`).

## Model

| member | source | states |
|---|---|---|
| Candles.Closes | streamlit_app.py:7 | The close column has one entry per candle, and entry `i` is candle `i`'s close. |
| MovingAverage.Sma | streamlit_app.py:6-7 | The SMA at index `i` is defined exactly when the period is at least 1 and `i >= p-1`. Before that it is NaN. |
| MovingAverage.RollingMean | streamlit_app.py:6-7 | The column built with a sliding running sum has one entry per candle, and each entry equals the trailing-window mean `Sma` at that index. |
| MovingAverage.SmaTrailingOnly | streamlit_app.py:7 | The SMA never looks ahead: appending later closes leaves the SMA at every existing index unchanged. |
| MovingAverage.SmaDependsOnlyOnWindow | streamlit_app.py:7 | The SMA at `i` depends only on the `p` closes ending at `i`. Two histories that agree there have equal SMAs there. |
| MovingAverage.SmaWithinWindowRange | streamlit_app.py:7 | The SMA is a mean. It lies between any lower and upper bound of the closes in its window. |
| MovingAverage.SmaOfFlatWindow | streamlit_app.py:7 | If every close in the window equals `c`, the SMA is `c`. |
| MovingAverage.SmaOfPeriodOne | streamlit_app.py:7 | A one-period SMA equals that candle's close. |
| Respect.Below | streamlit_app.py:20 | Python's `x < sma` where `sma` may be NaN: false whenever the SMA is NaN, strict `<` otherwise. Its meaning for whole candles is proved in `ViolatesIffWholeCandleBelow`. |
| Respect.Violates | streamlit_app.py:20 | The rejection test: open, high, low and close are all `Below` the SMA. Its independent characterisation is `ViolatesIffWholeCandleBelow`. |
| Respect.ViolatesIffWholeCandleBelow | streamlit_app.py:20 | A candle violates the SMA iff the SMA is defined and the largest of its four prices is strictly below it. A NaN SMA is never violated. |
| Respect.RespectsContinuously | streamlit_app.py:15-22 | The early-exit scan, which breaks at the first violating candle, returns true iff no index has a violating candle. This is the full predicate `Respected`. |
| Respect.CheckContinuousRespectSma | streamlit_app.py:9-26 | The nested loops return exactly `RespectedPeriods(series, smaList)`. A period is in the output iff it is listed and respected. |
| Respect.CheckDefaultSmas | streamlit_app.py:9 | With the default list `[34, 50, 55, 89, 100, 144, 200, 233]`, the output is those defaults that are respected, in order. |
| Respect.RespectedPeriods | streamlit_app.py:12-26 | The functional result: the listed periods that the series respects, in list order. It is never longer than the list. Both loops are proved to compute it. |
| Respect.RespectedPeriodsSnoc | streamlit_app.py:23-24 | Checking one more period appends it to the result exactly when it is respected. |
| Respect.RespectedPeriodsMembership | streamlit_app.py:12-24 | A period is in the result iff it is in the list and the series respects it. |
| RespectProperties.NoViolationWhileSmaUndefined | streamlit_app.py:16-22 | At an index below `p-1`, or for a zero-length window, the SMA is NaN. The candle there never counts as a violation, whatever its prices. |
| RespectProperties.RespectedIffNoViolationAtDefinedIndex | streamlit_app.py:15-22 | The scan from index 0 gives the same verdict as a scan of only the indices `i >= p-1` where the SMA is defined, in both directions. |
| RespectProperties.AtOrAboveIsNoViolation | streamlit_app.py:20 | The comparisons are strict. A candle with any one price at or above the SMA is not a violation. |
| RespectProperties.CandleOnSmaIsNoViolation | streamlit_app.py:20 | A candle whose four prices all equal the SMA is not below it. |
| RespectProperties.ShortSeriesIsRespected | streamlit_app.py:15-24 | A series shorter than the period, empty, or paired with a zero-length window respects that period vacuously. |
| RespectProperties.ViolationRejects | streamlit_app.py:20-24 | One candle entirely below its defined SMA rejects the period, and the period is missing from the result for any period list. |
| RespectProperties.ClosingAboveSmaIsRespected | streamlit_app.py:16-24 | A series that closes at or above the SMA at every defined index respects the period. |
| RespectProperties.ExtensionPreservesRejection | streamlit_app.py:16-22 | Appending candles never turns a rejected period into a respected one. |
| RespectProperties.ExtensionShrinksResult | streamlit_app.py:12-26 | After appending candles, the result is a subsequence of the earlier result: periods can drop out but are never added or reordered. |
| RespectProperties.ResultIsSubsequenceOfList | streamlit_app.py:12-24 | The result is a subsequence of the period list, in the original order. |
| RespectProperties.RespectedPeriodsAppend | streamlit_app.py:12-26 | Checking list `a ++ b` gives the result for `a` followed by the result for `b`. Each period's verdict is independent of the other periods. |
| RespectProperties.RespectedPeriodsSingleton | streamlit_app.py:23-24 | A one-period list comes back as itself if the period is respected and empty otherwise. |
| RespectProperties.AllRespectedKeepsList | streamlit_app.py:12-26 | A list whose periods are all respected comes back unchanged, duplicates included. |
| RespectProperties.RespectedPeriodsIdempotent | streamlit_app.py:12-26 | Checking the result list again returns it unchanged. |
| RespectProperties.EmptySeriesKeepsList | streamlit_app.py:12-26 | An empty history respects every period, so the whole list comes back. |
| RespectProperties.ShortHistoryKeepsDefaults | streamlit_app.py:9-26 | With fewer than 34 candles, every default period comes back. |
| RespectProperties.RespectedExample | streamlit_app.py:6-26 | Candles (10,12,9,11), (11,13,10,12), (12,14,11,13) with period 3 have SMA 12 at index 2 and respect period 3. |
| RespectProperties.CollapseRejectsTwoAndThree | streamlit_app.py:16-22 | A last candle (5,6,4,5) after closes 11 and 12 lies below the period-2 and period-3 SMAs, so both periods are rejected. |
| RespectProperties.PeriodOneIsRespected | streamlit_app.py:16-22 | Every series respects period 1, since no candle's close is below itself. |
| RespectProperties.CollapseExample | streamlit_app.py:9-26 | On that collapsing series, checking `[1, 2, 3, 4]` returns `[1, 4]`. |

## Left out

- Market-data download (`yf.download`, streamlit_app.py:75): network I/O through an external library. The model takes the candle series as a parameter.
- The Streamlit front end: `main`, its text inputs, selectbox, button and error messages, and `display_results` (streamlit_app.py:28-80). This is presentation only.
- Date parsing and the 365-day lookback extension (streamlit_app.py:56-68). This only shapes the input to the download.
- Floating-point rounding: prices and the SMA are exact `real`s. pandas' float rolling mean can differ from the exact mean in the last bits, which can matter only for candles within rounding distance of the SMA.
- Missing prices (NaN inside the downloaded columns): every price is a number in the model. Only the SMA can be NaN.
- Negative periods, which make pandas raise an error: periods are `nat`. A period of 0 is modelled as a window with no observations, which has no mean, so every index is NaN.
- Column-shape variations of the downloaded table, such as multi-level column labels, are a property of the external library, not of `check_continuous_respect_sma`.
- Touch counting and reporting of non-respected periods: `check_continuous_respect_sma` does neither, so there is nothing to model.
