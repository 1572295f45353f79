/** The SMA100 touch screener: a bar "touches" its 100-day simple moving average
    when its close lies within 1% of it. Only the 15 most recent bars that have
    an SMA100 are examined, and every touching bar is reported. */
module SmaTouch {
  import opened Bars

  const SMA_PERIOD: nat := 100
  const TOLERANCE: real := 0.01
  const LOOKBACK: nat := 15

  datatype SmaRow = SmaRow(ticker: string, date: int, close: real, sma100: real)

  /** The sum of the closes of rows lo .. hi - 1. */
  function CloseSum(bars: seq<Bar>, lo: nat, hi: nat): real
    requires lo <= hi <= |bars|
    decreases hi - lo
  {
    if hi == lo then 0.0 else CloseSum(bars, lo, hi - 1) + bars[hi - 1].close
  }

  /** The rolling mean of the 100 closes ending at row j; rows j < 99 have none
      (pandas leaves them NaN and the screener drops them). */
  function Sma100(bars: seq<Bar>, j: nat): (sma: real)
    requires SMA_PERIOD - 1 <= j < |bars|
    ensures (forall t :: j + 1 - SMA_PERIOD <= t <= j ==> bars[t].close == bars[j].close) ==> sma == bars[j].close
  {
    var lo := j + 1 - SMA_PERIOD;
    assert (forall t :: lo <= t <= j ==> bars[t].close == bars[j].close) ==>
      CloseSum(bars, lo, j + 1) == SMA_PERIOD as real * bars[j].close by {
      if forall t :: lo <= t <= j ==> bars[t].close == bars[j].close {
        CloseSumOfConstant(bars, lo, j + 1, bars[j].close);
      }
    }
    CloseSum(bars, lo, j + 1) / SMA_PERIOD as real
  }

  /** The closes of n rows all equal to c sum to n * c. */
  lemma {:induction false} CloseSumOfConstant(bars: seq<Bar>, lo: nat, hi: nat, c: real)
    requires lo <= hi <= |bars|
    requires forall t :: lo <= t < hi ==> bars[t].close == c
    ensures CloseSum(bars, lo, hi) == (hi - lo) as real * c
    decreases hi - lo
  {
    if hi > lo {
      CloseSumOfConstant(bars, lo, hi - 1, c);
    }
  }

  /** The touch test, boundary included. */
  predicate Touches(close: real, sma: real): (b: bool)
    ensures b <==> (1.0 - TOLERANCE) * sma <= close <= (1.0 + TOLERANCE) * sma
  {
    Abs(close - sma) <= TOLERANCE * sma
  }

  /** First row of `df.dropna().tail(LOOKBACK)`: the rows with an SMA100 are
      99 .. n - 1, and the window keeps the last 15 of them. */
  function WindowStart(n: nat): (lo: nat)
    requires n >= SMA_PERIOD
    ensures SMA_PERIOD - 1 <= lo < n
    ensures n - lo == if n - (SMA_PERIOD - 1) < LOOKBACK then n - (SMA_PERIOD - 1) else LOOKBACK
  {
    var defined := n - (SMA_PERIOD - 1);
    if defined > LOOKBACK then n - LOOKBACK else SMA_PERIOD - 1
  }

  /** The report row for bar j. */
  function RowAt(ticker: string, bars: seq<Bar>, j: nat): SmaRow
    requires SMA_PERIOD - 1 <= j < |bars|
  {
    SmaRow(ticker, bars[j].date, bars[j].close, Sma100(bars, j))
  }

  /** The touching rows among bars lo .. hi - 1, in chronological order. */
  function TouchRowsIn(ticker: string, bars: seq<Bar>, lo: nat, hi: nat): seq<SmaRow>
    requires SMA_PERIOD - 1 <= lo <= hi <= |bars|
    decreases hi - lo
  {
    if hi == lo then []
    else
      TouchRowsIn(ticker, bars, lo, hi - 1)
        + (if Touches(bars[hi - 1].close, Sma100(bars, hi - 1)) then [RowAt(ticker, bars, hi - 1)] else [])
  }

  /** The rows one ticker contributes: none with fewer than 100 bars, else the
      touching rows of the lookback window. */
  function SmaTouchRows(ticker: string, bars: seq<Bar>): (rows: seq<SmaRow>)
    ensures |rows| <= LOOKBACK
  {
    if |bars| < SMA_PERIOD then []
    else
      TouchRowsInSize(ticker, bars, WindowStart(|bars|), |bars|);
      TouchRowsIn(ticker, bars, WindowStart(|bars|), |bars|)
  }

  lemma {:induction false} TouchRowsInMembership(ticker: string, bars: seq<Bar>, lo: nat, hi: nat, r: SmaRow)
    requires SMA_PERIOD - 1 <= lo <= hi <= |bars|
    ensures r in TouchRowsIn(ticker, bars, lo, hi) <==>
      exists j :: lo <= j < hi && Touches(bars[j].close, Sma100(bars, j)) && r == RowAt(ticker, bars, j)
    decreases hi - lo
  {
    if hi > lo {
      TouchRowsInMembership(ticker, bars, lo, hi - 1, r);
    }
  }

  lemma {:induction false} TouchRowsInSize(ticker: string, bars: seq<Bar>, lo: nat, hi: nat)
    requires SMA_PERIOD - 1 <= lo <= hi <= |bars|
    ensures |TouchRowsIn(ticker, bars, lo, hi)| <= hi - lo
    decreases hi - lo
  {
    if hi > lo {
      TouchRowsInSize(ticker, bars, lo, hi - 1);
    }
  }

  /** A row is reported iff the series has at least 100 bars and the row is a
      touching bar among the last 15 rows that have an SMA100. */
  lemma SmaTouchRowsMembership(ticker: string, bars: seq<Bar>, r: SmaRow)
    ensures r in SmaTouchRows(ticker, bars) <==>
      (&& |bars| >= SMA_PERIOD
       && exists j :: WindowStart(|bars|) <= j < |bars| && Touches(bars[j].close, Sma100(bars, j)) && r == RowAt(ticker, bars, j))
  {
    if |bars| >= SMA_PERIOD {
      TouchRowsInMembership(ticker, bars, WindowStart(|bars|), |bars|, r);
    }
  }

  /** At most 15 rows per ticker, each of them a touch of that ticker. */
  lemma SmaTouchRowsBounded(ticker: string, bars: seq<Bar>)
    ensures |SmaTouchRows(ticker, bars)| <= LOOKBACK
    ensures forall r :: r in SmaTouchRows(ticker, bars) ==> r.ticker == ticker && Touches(r.close, r.sma100)
  {
    forall r | r in SmaTouchRows(ticker, bars) ensures r.ticker == ticker && Touches(r.close, r.sma100) {
      SmaTouchRowsMembership(ticker, bars, r);
    }
  }

  /** Matching rows are emitted in chronological order. */
  lemma {:induction false} TouchRowsInChronological(ticker: string, bars: seq<Bar>, lo: nat, hi: nat)
    requires SMA_PERIOD - 1 <= lo <= hi <= |bars|
    requires Chronological(bars)
    ensures forall a, b :: 0 <= a < b < |TouchRowsIn(ticker, bars, lo, hi)| ==>
      TouchRowsIn(ticker, bars, lo, hi)[a].date < TouchRowsIn(ticker, bars, lo, hi)[b].date
    decreases hi - lo
  {
    if hi > lo {
      var before := TouchRowsIn(ticker, bars, lo, hi - 1);
      TouchRowsInChronological(ticker, bars, lo, hi - 1);
      forall r | r in before ensures r.date < bars[hi - 1].date {
        TouchRowsInMembership(ticker, bars, lo, hi - 1, r);
      }
      var after := TouchRowsIn(ticker, bars, lo, hi);
      forall a, b | 0 <= a < b < |after| ensures after[a].date < after[b].date {
        if b >= |before| {
          assert after[a] == before[a];
          assert before[a] in before;
        }
      }
    }
  }

  /** A close exactly on the SMA (of a non-negative price) is a touch, and so is
      one exactly 1% away: the boundary counts. */
  lemma TouchBoundaryInclusive(close: real, sma: real)
    requires sma >= 0.0
    requires close == sma || Abs(close - sma) == TOLERANCE * sma
    ensures Touches(close, sma)
  {
  }

  /** For a constant series the SMA100 equals the price, so every bar of the
      window touches and the window is reported in full. */
  lemma ConstantSeriesTouchesEveryRow(ticker: string, bars: seq<Bar>, c: real, j: nat)
    requires c >= 0.0
    requires forall t :: 0 <= t < |bars| ==> bars[t].close == c
    requires SMA_PERIOD - 1 <= j < |bars|
    ensures Sma100(bars, j) == c
    ensures Touches(bars[j].close, Sma100(bars, j))
  {
  }

  // ---------------------------------------------------------------------------
  // The screener pass over a universe of downloads.

  /** The rows one download contributes to a screener pass. */
  function DownloadTouchRows(d: Download): seq<SmaRow> {
    SmaTouchRows(d.ticker, d.bars)
  }

  /** All rows of a screener pass, ticker by ticker in universe order. */
  function SmaScreen(universe: seq<Download>): seq<SmaRow> {
    Concat(universe, DownloadTouchRows)
  }

  /** The screener loop: skip tickers with fewer than 100 bars, append every
      touching row of the others. */
  method RunSmaScreener(universe: seq<Download>) returns (rows: seq<SmaRow>)
    ensures rows == SmaScreen(universe)
  {
    rows := [];
    for k := 0 to |universe|
      invariant rows == SmaScreen(universe[..k])
    {
      var d := universe[k];
      ConcatSnoc(universe, DownloadTouchRows, k);
      if |d.bars| < SMA_PERIOD {
        continue;
      }
      var matched := SmaTouchRows(d.ticker, d.bars);
      rows := rows + matched;
    }
    assert universe[..|universe|] == universe;
  }

  /** A row is in the screen iff it is a touch row of some download. */
  lemma SmaScreenMembership(universe: seq<Download>, r: SmaRow)
    ensures r in SmaScreen(universe) <==> exists d :: d in universe && r in SmaTouchRows(d.ticker, d.bars)
  {
    ConcatMembership(universe, DownloadTouchRows, r);
  }

  /** The screen is empty iff no download has a touch row. */
  lemma SmaScreenEmpty(universe: seq<Download>)
    ensures SmaScreen(universe) == [] <==> forall d :: d in universe ==> SmaTouchRows(d.ticker, d.bars) == []
  {
    ConcatEmpty(universe, DownloadTouchRows);
  }
}
