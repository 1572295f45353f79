/** MACD columns on a price frame and the two crossover scanners that walk the
    frame backward from the latest bar. */
module Macd {
  import opened Bars
  import opened Smoothing

  /** Scan depth the screeners pass to the crossover scanners. */
  const SCAN_DAYS: int := 100

  /** A per-ticker price frame: the date index and close column as fetched, plus
      the indicator columns calculate_macd adds in place. Before the columns are
      added they are empty. */
  class PriceFrame {
    const dates: seq<int>
    const close: seq<real>
    var emaShort: seq<real>
    var emaLong: seq<real>
    var macd: seq<real>
    var signal: seq<real>

    constructor (bars: seq<Bar>)
      ensures dates == Dates(bars) && close == Closes(bars)
      ensures emaShort == [] && emaLong == [] && macd == [] && signal == []
    {
      dates := Dates(bars);
      close := Closes(bars);
      emaShort, emaLong, macd, signal := [], [], [], [];
    }

    /** The MACD and Signal columns exist and are aligned with the index. */
    predicate HasMacd()
      reads this
    {
      |dates| == |close| && |macd| == |close| && |signal| == |close|
    }

    /** Adds the EMA_short, EMA_long, MACD and Signal columns. */
    method CalculateMacd(short: nat, long: nat, signalSpan: nat)
      requires short >= 1 && long >= 1 && signalSpan >= 1
      requires |dates| == |close|
      modifies this
      ensures emaShort == Ema(close, Alpha(short))
      ensures emaLong == Ema(close, Alpha(long))
      ensures macd == MacdLine(close, short, long)
      ensures signal == SignalLine(close, short, long, signalSpan)
      ensures HasMacd()
    {
      emaShort := Ema(close, Alpha(short));
      emaLong := Ema(close, Alpha(long));
      macd := Minus(emaShort, emaLong);
      signal := Ema(macd, Alpha(signalSpan));
    }
  }

  datatype Crossover =
    | BullishNegative  // MACD crosses above Signal with both below zero
    | BearishPositive  // MACD crosses below Signal with both above zero

  /** The crossover test on one adjacent pair of (MACD, Signal) values. All
      comparisons are strict: a tie never qualifies. */
  predicate Crosses(kind: Crossover, macdPrev: real, signalPrev: real, macdCurr: real, signalCurr: real): (b: bool)
    // a crossing swaps the strict order of the two lines between the two bars
    ensures b ==> macdPrev != signalPrev && macdCurr != signalCurr
    ensures b ==> (macdPrev < signalPrev <==> macdCurr > signalCurr)
    // and both lines end on the side of zero that names the kind
    ensures b ==> (kind == BullishNegative <==> macdCurr < 0.0 && signalCurr < 0.0)
    ensures b ==> (kind == BearishPositive <==> macdCurr > 0.0 && signalCurr > 0.0)
  {
    match kind
    case BullishNegative =>
      macdPrev < signalPrev && macdCurr > signalCurr && macdCurr < 0.0 && signalCurr < 0.0
    case BearishPositive =>
      macdPrev > signalPrev && macdCurr < signalCurr && macdCurr > 0.0 && signalCurr > 0.0
  }

  /** The pair (j - 1, j) of the columns crosses. */
  predicate CrossesAt(kind: Crossover, macd: seq<real>, signal: seq<real>, j: int)
    requires |signal| == |macd| && 0 < j < |macd|
  {
    Crosses(kind, macd[j - 1], signal[j - 1], macd[j], signal[j])
  }

  /** How many adjacent pairs `range(1, min(days + 1, n))` visits on n bars. */
  function PairsScanned(days: int, n: nat): (k: nat)
    ensures k == if n < 2 || days < 1 then 0 else if days < n - 1 then days else n - 1
  {
    var stop := if days + 1 < n then days + 1 else n;
    if stop > 1 then stop - 1 else 0
  }

  /** The dates the scanner appends after examining the k newest pairs: pair
      i = 1 .. k is (n - i - 1, n - i), and a crossing pair contributes the date
      of its later bar. Newest pairs come first. */
  function Crossovers(kind: Crossover, macd: seq<real>, signal: seq<real>, dates: seq<int>, k: nat): (found: seq<int>)
    requires |signal| == |macd| && |dates| == |macd|
    requires k == 0 || k < |macd|
    ensures |found| <= k
  {
    if k == 0 then []
    else
      var j := |macd| - k;
      Crossovers(kind, macd, signal, dates, k - 1) + (if CrossesAt(kind, macd, signal, j) then [dates[j]] else [])
  }

  /** Walks the adjacent pairs backward from the latest bar over at most `days`
      pairs, collecting the dates of the crossing pairs. */
  method ScanCrossovers(df: PriceFrame, kind: Crossover, days: int) returns (crossoverDates: seq<int>)
    requires df.HasMacd()
    ensures crossoverDates == Crossovers(kind, df.macd, df.signal, df.dates, PairsScanned(days, |df.dates|))
  {
    var n := |df.dates|;
    var stop := if days + 1 < n then days + 1 else n;
    crossoverDates := [];
    var i := 1;
    while i < stop
      invariant 1 <= i && (i <= stop || i == 1)
      invariant crossoverDates == Crossovers(kind, df.macd, df.signal, df.dates, i - 1)
    {
      var macdPrev, signalPrev := df.macd[n - i - 1], df.signal[n - i - 1];
      var macdCurr, signalCurr := df.macd[n - i], df.signal[n - i];
      if Crosses(kind, macdPrev, signalPrev, macdCurr, signalCurr) {
        crossoverDates := crossoverDates + [df.dates[n - i]];
      }
      i := i + 1;
    }
  }

  /** Bullish crossovers in negative MACD territory over the last `days` pairs. */
  method CheckNegativeMacdCrossover(df: PriceFrame, days: int) returns (crossoverDates: seq<int>)
    requires df.HasMacd()
    ensures crossoverDates == Crossovers(BullishNegative, df.macd, df.signal, df.dates, PairsScanned(days, |df.dates|))
  {
    crossoverDates := ScanCrossovers(df, BullishNegative, days);
  }

  /** Bearish crossovers in positive MACD territory over the last `days` pairs. */
  method CheckPositiveMacdBearishCrossover(df: PriceFrame, days: int) returns (crossoverDates: seq<int>)
    requires df.HasMacd()
    ensures crossoverDates == Crossovers(BearishPositive, df.macd, df.signal, df.dates, PairsScanned(days, |df.dates|))
  {
    crossoverDates := ScanCrossovers(df, BearishPositive, days);
  }

  /** A date is reported iff some examined pair (j - 1, j), j among the k newest
      bars, crosses and j carries that date. */
  lemma {:induction false} CrossoversMembership(kind: Crossover, macd: seq<real>, signal: seq<real>, dates: seq<int>, k: nat, d: int)
    requires |signal| == |macd| && |dates| == |macd|
    requires k == 0 || k < |macd|
    ensures d in Crossovers(kind, macd, signal, dates, k) <==>
      exists j :: |macd| - k <= j < |macd| && CrossesAt(kind, macd, signal, j) && dates[j] == d
  {
    if k > 0 {
      CrossoversMembership(kind, macd, signal, dates, k - 1, d);
    }
  }

  /** The scanner appends newest-first, so on a chronological index its list is
      strictly decreasing. */
  lemma {:induction false} CrossoversNewestFirst(kind: Crossover, macd: seq<real>, signal: seq<real>, dates: seq<int>, k: nat)
    requires |signal| == |macd| && |dates| == |macd|
    requires k == 0 || k < |macd|
    requires StrictlyIncreasing(dates)
    ensures StrictlyDecreasing(Crossovers(kind, macd, signal, dates, k))
  {
    if k > 0 {
      var n := |macd|;
      var before := Crossovers(kind, macd, signal, dates, k - 1);
      CrossoversNewestFirst(kind, macd, signal, dates, k - 1);
      forall x | x in before ensures x > dates[n - k] {
        CrossoversMembership(kind, macd, signal, dates, k - 1, x);
      }
      var after := Crossovers(kind, macd, signal, dates, k);
      forall a, b | 0 <= a < b < |after| ensures after[a] > after[b] {
        if b >= |before| {
          assert after[a] == before[a];
          assert before[a] in before;
        }
      }
    }
  }

  /** No pair is both a bullish-negative and a bearish-positive crossover. */
  lemma CrossingKindsExclusive(macdPrev: real, signalPrev: real, macdCurr: real, signalCurr: real)
    ensures !(Crosses(BullishNegative, macdPrev, signalPrev, macdCurr, signalCurr)
              && Crosses(BearishPositive, macdPrev, signalPrev, macdCurr, signalCurr))
  {
  }

  /** On a chronological index, no date is reported by both scanners. */
  lemma BullishBearishDisjoint(macd: seq<real>, signal: seq<real>, dates: seq<int>, k1: nat, k2: nat, d: int)
    requires |signal| == |macd| && |dates| == |macd|
    requires (k1 == 0 || k1 < |macd|) && (k2 == 0 || k2 < |macd|)
    requires StrictlyIncreasing(dates)
    ensures !(d in Crossovers(BullishNegative, macd, signal, dates, k1) && d in Crossovers(BearishPositive, macd, signal, dates, k2))
  {
    CrossoversMembership(BullishNegative, macd, signal, dates, k1, d);
    CrossoversMembership(BearishPositive, macd, signal, dates, k2, d);
  }

  /** A flat MACD and Signal (both zero everywhere) never crosses. */
  lemma {:induction false} FlatLinesNeverCross(kind: Crossover, macd: seq<real>, signal: seq<real>, dates: seq<int>, k: nat)
    requires |signal| == |macd| && |dates| == |macd|
    requires k == 0 || k < |macd|
    requires forall t :: 0 <= t < |macd| ==> macd[t] == 0.0 && signal[t] == 0.0
    ensures Crossovers(kind, macd, signal, dates, k) == []
  {
    if k > 0 {
      FlatLinesNeverCross(kind, macd, signal, dates, k - 1);
      var j := |macd| - k;
      assert macd[j] == 0.0 && signal[j] == 0.0;
    }
  }

  /** For a constant close series neither scanner returns a date. */
  lemma ConstantCloseNoCrossover(kind: Crossover, close: seq<real>, dates: seq<int>, c: real, k: nat)
    requires |dates| == |close|
    requires k == 0 || k < |close|
    requires forall t :: 0 <= t < |close| ==> close[t] == c
    ensures Crossovers(kind, MacdLine(close, SHORT_SPAN, LONG_SPAN),
                       SignalLine(close, SHORT_SPAN, LONG_SPAN, SIGNAL_SPAN), dates, k) == []
  {
    ConstantCloseFlatMacd(close, c, SHORT_SPAN, LONG_SPAN, SIGNAL_SPAN);
    FlatLinesNeverCross(kind, MacdLine(close, SHORT_SPAN, LONG_SPAN),
                        SignalLine(close, SHORT_SPAN, LONG_SPAN, SIGNAL_SPAN), dates, k);
  }

  // ---------------------------------------------------------------------------
  // Per-ticker reduction: one row with the most recent crossover date.

  datatype CrossoverRow = CrossoverRow(ticker: string, mostRecentCrossover: int)

  /** What calculate_macd followed by a scanner yields for one ticker's bars. */
  function TickerCrossovers(kind: Crossover, bars: seq<Bar>, days: int): seq<int> {
    var close := Closes(bars);
    Crossovers(kind, MacdLine(close, SHORT_SPAN, LONG_SPAN),
               SignalLine(close, SHORT_SPAN, LONG_SPAN, SIGNAL_SPAN),
               Dates(bars), PairsScanned(days, |bars|))
  }

  /** The row a download contributes: none for an empty download or one without
      a crossover, else its ticker with the latest crossover date. */
  function CrossoverRowFor(kind: Crossover, d: Download, days: int): seq<CrossoverRow> {
    if |d.bars| == 0 then []
    else
      var found := TickerCrossovers(kind, d.bars, days);
      if found == [] then [] else [CrossoverRow(d.ticker, MaxOf(found))]
  }

  /** CrossoverRowFor as the per-download step of a screener pass. */
  function CrossoverRowsOf(kind: Crossover, days: int): Download -> seq<CrossoverRow> {
    d => CrossoverRowFor(kind, d, days)
  }

  /** The result table of a screener pass over the universe, in universe order. */
  function CrossoverTable(kind: Crossover, universe: seq<Download>, days: int): seq<CrossoverRow> {
    Concat(universe, CrossoverRowsOf(kind, days))
  }

  /** A download contributes a row iff the scanner found a crossover in it, and
      the row holds its ticker and the latest date found; an empty download
      has no pairs to scan. */
  lemma CrossoverRowForSpec(kind: Crossover, d: Download, days: int, r: CrossoverRow)
    ensures CrossoverRowFor(kind, d, days) == [] <==> TickerCrossovers(kind, d.bars, days) == []
    ensures r in CrossoverRowFor(kind, d, days) <==>
      TickerCrossovers(kind, d.bars, days) != [] && r == CrossoverRow(d.ticker, MaxOf(TickerCrossovers(kind, d.bars, days)))
  {
    if |d.bars| == 0 {
      assert PairsScanned(days, 0) == 0;
      assert TickerCrossovers(kind, d.bars, days) == [];
    }
  }

  /** A row is in the table iff some download of the universe has a crossover
      and the row holds its ticker and its latest crossover date. */
  lemma CrossoverTableMembership(kind: Crossover, universe: seq<Download>, days: int, r: CrossoverRow)
    ensures r in CrossoverTable(kind, universe, days) <==>
      exists d :: d in universe && TickerCrossovers(kind, d.bars, days) != []
        && r == CrossoverRow(d.ticker, MaxOf(TickerCrossovers(kind, d.bars, days)))
  {
    ConcatMembership(universe, CrossoverRowsOf(kind, days), r);
    forall d | d in universe {
      CrossoverRowForSpec(kind, d, days, r);
    }
  }

  /** Each download contributes at most one row. */
  lemma CrossoverTableSize(kind: Crossover, universe: seq<Download>, days: int)
    ensures |CrossoverTable(kind, universe, days)| <= |universe|
  {
    ConcatAtMostOneEach(universe, CrossoverRowsOf(kind, days));
  }

  /** The latest crossover of a chronological series is the first date the
      scanner appended, and it belongs to a scanned pair that crosses. */
  lemma LatestCrossoverQualifies(kind: Crossover, bars: seq<Bar>, days: int)
    requires Chronological(bars)
    requires TickerCrossovers(kind, bars, days) != []
    ensures MaxOf(TickerCrossovers(kind, bars, days)) == TickerCrossovers(kind, bars, days)[0]
    ensures exists j ::
      (&& |bars| - PairsScanned(days, |bars|) <= j < |bars|
       && CrossesAt(kind, MacdLine(Closes(bars), SHORT_SPAN, LONG_SPAN),
                    SignalLine(Closes(bars), SHORT_SPAN, LONG_SPAN, SIGNAL_SPAN), j)
       && bars[j].date == MaxOf(TickerCrossovers(kind, bars, days)))
  {
    var close := Closes(bars);
    var macd := MacdLine(close, SHORT_SPAN, LONG_SPAN);
    var signal := SignalLine(close, SHORT_SPAN, LONG_SPAN, SIGNAL_SPAN);
    var found := TickerCrossovers(kind, bars, days);
    ChronologicalDates(bars);
    CrossoversNewestFirst(kind, macd, signal, Dates(bars), PairsScanned(days, |bars|));
    MaxOfNewestFirst(found);
    CrossoversMembership(kind, macd, signal, Dates(bars), PairsScanned(days, |bars|), MaxOf(found));
  }

  /** With distinct tickers, no ticker appears in two rows of a table. */
  lemma CrossoverTableOneRowPerTicker(kind: Crossover, universe: seq<Download>, days: int, r1: CrossoverRow, r2: CrossoverRow)
    requires DistinctTickers(universe)
    requires r1 in CrossoverTable(kind, universe, days) && r2 in CrossoverTable(kind, universe, days)
    requires r1.ticker == r2.ticker
    ensures r1 == r2
  {
    CrossoverTableMembership(kind, universe, days, r1);
    CrossoverTableMembership(kind, universe, days, r2);
  }

  /** A table is empty iff no download of the universe has a crossover. */
  lemma CrossoverTableEmpty(kind: Crossover, universe: seq<Download>, days: int)
    ensures CrossoverTable(kind, universe, days) == [] <==>
      forall d :: d in universe ==> TickerCrossovers(kind, d.bars, days) == []
  {
    ConcatEmpty(universe, CrossoverRowsOf(kind, days));
    forall d | d in universe {
      CrossoverRowForSpec(kind, d, days, CrossoverRow(d.ticker, 0));
    }
  }

  function TickerOf(r: CrossoverRow): string { r.ticker }

  function CrossoverDateOf(r: CrossoverRow): int { r.mostRecentCrossover }
}
