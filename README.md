# NASDAQ screeners: indicator engine in Dafny

This project models the indicator engine of a set of stock-screening scripts. Each script downloads daily bars for a fixed list of tickers. It derives indicators from the bars and builds a result table. It mails the table when the table has rows. The model covers the computations between the download and the mail:

- **MACD and crossovers** (`MACD_SMA.py`, `macd_negative_crossover_email_csv_env.py`). EMA12, EMA26, MACD and Signal are computed as pandas `ewm(span, adjust=False)` computes them. Two scanners walk at most 100 adjacent pairs backward from the latest bar:
  - a bullish crossover in negative territory;
  - a bearish crossover in positive territory.
  
  The screener then keeps each ticker's most recent crossover. Modules `Smoothing` and `Macd` model this; `MacdSma` and `MacdEmail` model the two screener passes and their send rules.
- **SMA100 touches** (all three copies: `MACD_SMA.py`, `macd_negative_crossover_email_csv_env.py`, `Fibbo1.py`). A bar touches when its close is within 1% of its 100-day simple moving average, boundary included. Only the last 15 bars that have an SMA100 are examined, and tickers with fewer than 100 bars are skipped. Module `SmaTouch` models the scan, and module `Fibbo` adds Fibbo1's ordering (Date descending, then Ticker ascending) and its send rule.
- **Highlighting** (`highlight_most_recent`). A row is marked iff its date is the latest date among the rows of its ticker. Module `Highlighting` models it.
- **Bullish reversal** (`Bullish_Reversal.py`). It looks for Bullish Engulfing and Piercing over the adjacent pairs of the last ten bars. Each screener row is stamped with the ticker's last bar date. Module `Reversal` models it.
- **Drawdown statistics** (`Stats.py`). A trigger is a one-day return of -3% or worse. For each trigger the model takes the lowest close of the next seven rows, computes the correction from the trigger close, and summarises the events with count, mean, maximum and the shares of declines of at least 5% and 10%. Module `Drawdown` models it.

**Representation**

- A bar is a `Bars.Bar` with an integer day number as its date and real prices.
- One ticker's download is a `Bars.Download`.
- A screener pass takes the universe of downloads as a parameter. An empty download stands for a failed or empty fetch.
- Code that updates state step by step becomes methods with loops, proved equal to specification functions:
  - the scanner loops;
  - the screener loops that append rows;
  - the reversal detector;
  - the trigger loop.
- `calculate_macd` adds columns to a frame in place, so it is a method of class `Macd.PriceFrame`.
- Vectorised pandas expressions and reductions become functions: EMA, rolling mean, masks, group-by max, sort and summary statistics.

**Shared code.** The email script's `calculate_macd` (lines 95-100) and `check_negative_macd_crossover` (lines 102-111) are the same code as `MACD_SMA.py`'s lines 30-35 and 38-46. They are modelled once, by `Macd.PriceFrame.CalculateMacd` and `Macd.CheckNegativeMacdCrossover`. Likewise, the SMA100 scans of the email script (lines 136-164) and of Fibbo1.py (lines 35-68) are the same as `MACD_SMA.py`'s `run_sma_screener`. All three are modelled by `SmaTouch.RunSmaScreener`.

**Why the reversal patterns exclude each other.** Engulfing needs `curr_close > prev_open` (Bullish_Reversal.py:53) and Piercing needs `curr_close < prev_open` (Bullish_Reversal.py:62). The two open-gap conditions alone do not exclude each other. `Reversal.PatternsExclusive` proves exclusivity from the two close conditions.

## Model

| member | source | states |
|---|---|---|
| Bars.MaxOf | MACD_SMA.py:74-77 | `max(...)` of a non-empty date list is one of its elements and at least every element |
| Bars.MaxOfNewestFirst | MACD_SMA.py:74-77 | on a newest-first (strictly decreasing) list, the maximum is the first element appended |
| Bars.MinReal | Stats.py:42-43 | the minimum of a non-empty window is one of its values and at most every value |
| Bars.MaxReal | Stats.py:66 | the maximum of the declines is one of them and at least every one |
| Bars.SumBoundedAbove | Stats.py:61 | a sum of n values each at most m is at most n·m, which bounds the mean by the maximum |
| Smoothing.Ema | MACD_SMA.py:31-32 | `ewm(span, adjust=False).mean()`: one value per input, the first input as seed and then prev + α·(x − prev) (proved by `EmaSeed` and `EmaStep`) |
| Smoothing.Alpha | MACD_SMA.py:31-34 | the smoothing factor 2/(span+1) of any span ≥ 1 lies in (0, 1] |
| Smoothing.MacdLine | MACD_SMA.py:33 | the MACD column has one value per close (the element-wise EMA_short − EMA_long) |
| Smoothing.SignalLine | MACD_SMA.py:34 | the Signal column has one value per close (the EMA of the MACD column) |
| Smoothing.EmaSeed | MACD_SMA.py:31-32 | with `adjust=False` the first EMA value is the first input (no warm-up average) |
| Smoothing.EmaStep | MACD_SMA.py:31-34 | every later EMA value is prev + α·(x − prev) |
| Smoothing.SmoothingStepBetween | MACD_SMA.py:31-34 | one smoothing step lands between the previous value and the new input |
| Smoothing.EmaWithinBounds | MACD_SMA.py:31-34 | every EMA value stays within any bounds that all the inputs keep |
| Smoothing.EmaOfConstant | MACD_SMA.py:31-32 | the EMA of a constant series is that constant at every bar |
| Smoothing.ConstantCloseFlatMacd | MACD_SMA.py:30-35 | for a constant close series, the MACD and Signal columns are 0 at every bar |
| Macd.PriceFrame.constructor | MACD_SMA.py:66-69 | a frame holds the downloaded dates and closes, with no indicator columns yet |
| Macd.PriceFrame.CalculateMacd | MACD_SMA.py:30-35 | adds EMA_short, EMA_long, MACD and Signal, each equal to its specification over the close column, all aligned with the index |
| Macd.Crosses | MACD_SMA.py:44-55 | the strict crossing test: a crossing swaps the strict order of MACD and Signal between the two bars, and both lines end below zero for the bullish kind and above zero for the bearish kind |
| Macd.Crossovers | MACD_SMA.py:41-45 | the dates appended after scanning the k newest pairs, newest first; at most k of them (membership and order in `CrossoversMembership`, `CrossoversNewestFirst`) |
| Macd.PairsScanned | MACD_SMA.py:41 | `range(1, min(days+1, n))` visits min(days, n−1) pairs, and none with fewer than 2 bars or days < 1 |
| Macd.ScanCrossovers | MACD_SMA.py:38-57 | the scanner loop returns exactly the dates of the crossing pairs among the visited ones, newest first |
| Macd.CheckNegativeMacdCrossover | MACD_SMA.py:38-46 | returns the bullish-negative crossover dates over the last `days` pairs |
| Macd.CheckPositiveMacdBearishCrossover | MACD_SMA.py:49-57 | returns the bearish-positive crossover dates over the last `days` pairs |
| Macd.CrossoversMembership | MACD_SMA.py:41-45 | a date is returned iff it is the later date of a visited pair that satisfies the strict crossing test |
| Macd.CrossoversNewestFirst | MACD_SMA.py:41-45 | on a chronological index, the returned dates are strictly decreasing |
| Macd.CrossingKindsExclusive | MACD_SMA.py:44-55 | no pair is both a bullish-negative and a bearish-positive crossover |
| Macd.BullishBearishDisjoint | MACD_SMA.py:38-57 | on a chronological index, no date is reported by both scanners |
| Macd.FlatLinesNeverCross | MACD_SMA.py:44-55 | when MACD and Signal are zero everywhere, no pair crosses (the comparisons are strict) |
| Macd.ConstantCloseNoCrossover | MACD_SMA.py:30-57 | for a constant close series, neither scanner returns a date |
| Macd.CrossoverRowForSpec | MACD_SMA.py:67-77 | a download contributes a row iff its scan found a crossover (an empty download finds none), and the row is its ticker with the latest date found |
| Macd.CrossoverTableMembership | MACD_SMA.py:64-77 | a row is in a table iff some non-empty download has crossovers and the row is its ticker with the maximum date |
| Macd.CrossoverTableSize | MACD_SMA.py:64-77 | a table has at most one row per download |
| Macd.LatestCrossoverQualifies | MACD_SMA.py:74-77 | the reported date is the first date the scanner found, and it is the date of a crossing pair within the scanned window |
| Macd.CrossoverTableOneRowPerTicker | MACD_SMA.py:64-77 | with distinct tickers, no ticker has two rows in a table |
| Macd.CrossoverTableEmpty | MACD_SMA.py:64-77 | a table is empty iff no download yields a crossover |
| MacdSma.RunMacdScreener | MACD_SMA.py:60-84 | the screener loop builds both tables: one row per non-empty download with crossovers, carrying the latest crossover date |
| MacdSma.ScanTicker | MACD_SMA.py:69-72 | for one download, the frame with MACD columns yields exactly the bullish-negative and bearish-positive crossover dates of its last 100 pairs |
| MacdSma.EmailSentIff | MACD_SMA.py:267-268 | the mail goes out iff some download has a crossover of either kind or some download has an SMA100 touch |
| MacdSma.CrossoverTableFullyHighlighted | MACD_SMA.py:247-254 | with distinct tickers, highlighting marks every row of a MACD table, in any order of its rows |
| MacdEmail.RunMacdScreener | macd_negative_crossover_email_csv_env.py:113-127 | the loop builds the bullish-negative table: one row per non-empty download with crossovers |
| MacdEmail.EmailSentIff | macd_negative_crossover_email_csv_env.py:178-179 | the mail goes out iff some download has a bullish-negative crossover or an SMA100 touch |
| SmaTouch.Sma100 | MACD_SMA.py:107 | `rolling(window=100).mean()` at row j, the mean of closes j−99 .. j; over a window of equal closes it is that close |
| SmaTouch.Touches | MACD_SMA.py:111 | abs(close − SMA100) ≤ 0.01·SMA100 holds iff 0.99·SMA100 ≤ close ≤ 1.01·SMA100 |
| SmaTouch.CloseSumOfConstant | MACD_SMA.py:107 | 100 closes all equal to c sum to 100·c, so the rolling mean of a constant window is c |
| SmaTouch.WindowStart | MACD_SMA.py:107-109 | the examined window holds the last min(15, n−99) rows that have an SMA100 |
| SmaTouch.SmaTouchRows | MACD_SMA.py:100-121 | one ticker's rows: none with fewer than 100 bars, otherwise the touching rows of the window; never more than 15 (membership in `SmaTouchRowsMembership`) |
| SmaTouch.SmaTouchRowsMembership | MACD_SMA.py:100-121 | a row is reported iff the series has at least 100 bars and the row is a touching bar of the window, with its close and SMA100 |
| SmaTouch.SmaTouchRowsBounded | MACD_SMA.py:109-121 | a ticker contributes at most 15 rows, each a touch of that ticker |
| SmaTouch.TouchRowsInChronological | MACD_SMA.py:111-121 | on a chronological series, touching rows are appended in date order |
| SmaTouch.TouchBoundaryInclusive | MACD_SMA.py:111 | a close exactly on the SMA or exactly 1% away is a touch |
| SmaTouch.ConstantSeriesTouchesEveryRow | MACD_SMA.py:107-111 | for a constant series, SMA100 equals the price, so every row of the window touches |
| SmaTouch.RunSmaScreener | MACD_SMA.py:93-125 | the loop skips tickers with fewer than 100 bars and appends all touching rows of the others |
| SmaTouch.SmaScreenMembership | MACD_SMA.py:97-121 | a row is in the screen iff it is a touch row of some download |
| SmaTouch.SmaScreenEmpty | MACD_SMA.py:93-125 | the screen is empty iff no download has a touch row |
| Highlighting.LatestDate | MACD_SMA.py:135 | the group-by max: none iff no row has the ticker; otherwise a date some row of the ticker has, and at least every such date |
| Highlighting.Highlight | MACD_SMA.py:130-137 | rows are kept in order, and a row is marked iff no row of its ticker has a later date |
| Highlighting.EveryTickerMarked | MACD_SMA.py:135-136 | every ticker in the table has at least one marked row |
| Highlighting.UniformDatesAllMarked | Bullish_Reversal.py:113-114 | when all rows of each ticker share one date, every row is marked |
| Reversal.Engulfing | Bullish_Reversal.py:50-55 | Bullish Engulfing: the current body strictly contains the previous bearish body (curr_open < prev_close < prev_open < curr_close) |
| Reversal.IsPiercing | Bullish_Reversal.py:58-63 | Piercing: the current close lands inside the previous bearish body, above its close and below its open |
| Reversal.Classify | Bullish_Reversal.py:65-68 | the pair is labelled Bullish Engulfing iff it is engulfing, and Piercing iff it is piercing, although Engulfing is tested first |
| Reversal.ReversalSignals | Bullish_Reversal.py:30-73 | `detect_bullish_reversal`'s result: no signal for fewer than 2 bars, otherwise the classified pairs of the ten-bar tail; fewer than 10 signals |
| Reversal.DetectBullishReversal | Bullish_Reversal.py:26-73 | the detector loop returns exactly the signals of the classified pairs of the ten-bar tail, and none for fewer than 2 bars |
| Reversal.PatternsExclusive | Bullish_Reversal.py:50-63 | Engulfing and Piercing never hold together, so the label chosen is unambiguous |
| Reversal.NoSignalAfterNonBearishCandle | Bullish_Reversal.py:50-65 | a pair whose first candle is not bearish yields no signal |
| Reversal.ReversalSignalsMembership | Bullish_Reversal.py:34-71 | a signal is emitted iff its pair (i−1, i) of the ten-bar tail matches a pattern; it carries i, the pattern and both closes |
| Reversal.ReversalSignalsShape | Bullish_Reversal.py:31-37 | at most 9 signals, with positions strictly increasing within 1 .. min(n,10)−1 |
| Reversal.EngulfingExample | Bullish_Reversal.py:50-71 | a bearish candle followed by an engulfing bullish one yields exactly one Bullish Engulfing signal at position 1 |
| Reversal.RunBullishReversalScreener | Bullish_Reversal.py:79-102 | the screener loop skips empty downloads and appends one row per signal |
| Reversal.AppendSignalRows | Bullish_Reversal.py:90-98 | the inner loop appends one row per signal, in signal order, each stamped with the ticker and its last bar date |
| Reversal.RowsForMembership | Bullish_Reversal.py:86-98 | an empty download contributes nothing; otherwise its rows are exactly its signals with its ticker and last bar date |
| Reversal.ReversalTableMembership | Bullish_Reversal.py:86-98 | a row is in the table iff it is a signal of a non-empty download, stamped with the ticker and its last bar date (not the pattern's position) |
| Reversal.ReversalTableFullyHighlighted | Bullish_Reversal.py:154-155 | with distinct tickers, highlighting marks every row of the table, whatever its order |
| Reversal.EmailSentIff | Bullish_Reversal.py:205-210 | the mail goes out iff some non-empty download has a pattern among its last ten bars |
| Fibbo.TickerLeTotal | Fibbo1.py:75 | any two tickers are comparable in Python's string order |
| Fibbo.TickerLeTransitive | Fibbo1.py:75 | Python's string order is transitive |
| Fibbo.TickerLeAntisymmetric | Fibbo1.py:75 | tickers each ordered before the other are equal |
| Fibbo.RowBeforeTotal | Fibbo1.py:75 | the (Date desc, Ticker asc) order relates any two rows |
| Fibbo.RowBeforeTransitive | Fibbo1.py:75 | the (Date desc, Ticker asc) order is transitive |
| Fibbo.SameKeysWhenMutuallyBefore | Fibbo1.py:75 | rows ordered both ways share both sort keys, so the order is fixed up to rows with equal keys |
| Fibbo.SortRows | Fibbo1.py:75 | `sort_values(["Date", "Ticker"], ascending=[False, True])` as an insertion sort; it keeps the number of rows (order and permutation in `SortRowsCorrect`) |
| Fibbo.SortRowsCorrect | Fibbo1.py:75 | the sorted table is in (Date desc, Ticker asc) order and is a permutation of the rows |
| Fibbo.Report | Fibbo1.py:35-80 | the script's result is the sorted touch screen, and the mail is sent iff it is non-empty |
| Fibbo.ReportContents | Fibbo1.py:35-75 | the report is ordered and holds exactly the touch rows of the universe |
| Fibbo.EmailSentIff | Fibbo1.py:71-80 | the mail goes out iff some ticker touched its SMA100 within the window |
| Drawdown.OneDayReturn | Stats.py:28-29 | `pct_change()` at row t, close[t]/close[t−1] − 1: above −100% for positive prices, and at most −3% iff close[t] ≤ 0.97·close[t−1] |
| Drawdown.IsTrigger | Stats.py:32 | row t is a trigger iff t ≥ 1 and close[t] ≤ 0.97·close[t−1]; row 0 has no return |
| Drawdown.Triggers | Stats.py:32 | the trigger rows in row order; each lies in 1 .. n−1 |
| Drawdown.TriggersSpec | Stats.py:28-33 | row t is a trigger iff t ≥ 1 and close[t]/close[t−1] − 1 ≤ −0.03, so row 0 never is; triggers are ascending |
| Drawdown.ForwardMin | Stats.py:42-43 | `future_window.min()` over rows i+1 .. i+7, the trigger row excluded (attained and a lower bound by `ForwardMinSpec`) |
| Drawdown.EventAt | Stats.py:41-50 | the table row of a retained trigger: its date, the return in %, the forward minimum and (min − close)/close in % (sign and bound in `CorrectionSign`) |
| Drawdown.AnalyzeDrawdowns | Stats.py:35-50 | the trigger loop returns exactly the events of triggers that have seven later rows; its body for one retained trigger is the helper method `MeasureEvent` |
| Drawdown.EventsMembership | Stats.py:32-50 | an event is recorded iff it belongs to a trigger row i with i + 7 < n |
| Drawdown.EventsChronological | Stats.py:32-50 | events follow the chronological order of their trigger days |
| Drawdown.ForwardMinSpec | Stats.py:42-43 | the forward minimum is the close of one of rows i+1 .. i+7 and at most each of them; the trigger row is excluded |
| Drawdown.CorrectionSign | Stats.py:44-57 | the correction is negative iff the forward minimum is below the trigger close, and the decline stays under 100% |
| Drawdown.Summarize | Stats.py:52-68 | there are no statistics iff there are no events |
| Drawdown.CountAtLeastBounds | Stats.py:67-68 | at least as many declines reach 5% as reach 10%, and no more than there are events |
| Drawdown.SummaryMaxDecline | Stats.py:66 | the maximum decline is attained by an event and is at least every event's decline |
| Drawdown.SummaryMeanAtMostMax | Stats.py:61-66 | the mean decline is at most the maximum decline |
| Drawdown.SummaryPercentages | Stats.py:67-68 | 0 ≤ pct_ge_10 ≤ pct_ge_5 ≤ 100 |
| Drawdown.SummaryBounds | Stats.py:60-68 | count is the number of events, together with the max, mean and percentage bounds |
| Drawdown.Analyze | Stats.py:52-68 | the script computes the events and summarises them only when there are any |

## Left out

- Market data download (`yf.download`, the tvDatafeed variant), environment variables, clock reads, console output, HTML rendering, CSV attachments and SMTP sending are I/O. The downloaded bars are a parameter, and each send rule is modelled as a predicate on the result tables.
- The per-ticker `try/except` is not modelled as an exception path. A ticker whose fetch fails contributes nothing, exactly like an empty download, which the model represents.
- pandas plumbing is not modelled: MultiIndex flattening, `pd.to_numeric(errors='coerce')`, the 'Adj Close' / 'Close' choice and `dropna` of NaN closes. Closes are real numbers with no NaN.
- Calendar dates are integer day numbers. `.date()` and `pd.to_datetime` conversions are not modelled.
- The hardcoded ticker lists are not modelled; the universe is a parameter. Fibbo1.py's list names PANW twice, so that ticker is scanned twice and its rows appear twice. The model accepts such a universe, and only the lemmas that require distinct tickers exclude it.
- The inclusive boundary tests `one_day_ret <= -0.03` (Stats.py:32) and `abs(Close - SMA100) <= 0.01 * SMA100` (MACD_SMA.py:111) are computed in IEEE doubles by the source and in exact reals by the model. A value lying exactly on −3% or on the 1% band can be decided differently after rounding, and the model does not capture that.
- Reversal.DetectBullishReversal: records the exact closes, not `round(prev_close, 2)` and `round(curr_close, 2)`, because decimal rounding of reals is outside the model.
- Drawdown.AnalyzeDrawdowns: requires positive closes, because a zero price makes the return and the correction divide by zero, where pandas produces inf or NaN.
- Stats.py's median, standard deviation and 25th/75th percentiles are not modelled. They need square roots and pandas' interpolation rules. The mean, count, maximum and shares are modelled.
- Stats.py's optional CSV input path and the final display sort of the event table are I/O and presentation.
- MACD_SMA.py's `sort_values` before highlighting, and Bullish_Reversal.py's, are not modelled as sorts. The highlight lemmas hold for every order of the rows, so the marks do not depend on the sort.
- Fibbo.SortRows: does not model pandas' tie order among rows with equal Date and Ticker. It fixes one order, and `Fibbo.SameKeysWhenMutuallyBefore` shows that only such rows can be exchanged.
