/** MACD_SMA.py: the MACD screener producing a bullish and a bearish table,
    the highlighting of its tables, and the rule that decides whether the
    three-table email goes out. */
module MacdSma {
  import opened Bars
  import opened Smoothing
  import opened Macd
  import opened SmaTouch
  import opened Highlighting

  /** The body of run_macd_screener for one non-empty download: build the
      frame, add the MACD columns and run both scanners over the last 100 pairs. */
  method ScanTicker(bars: seq<Bar>) returns (negCross: seq<int>, posCross: seq<int>)
    ensures negCross == TickerCrossovers(BullishNegative, bars, SCAN_DAYS)
    ensures posCross == TickerCrossovers(BearishPositive, bars, SCAN_DAYS)
  {
    var data := new PriceFrame(bars);
    data.CalculateMacd(SHORT_SPAN, LONG_SPAN, SIGNAL_SPAN);
    negCross := CheckNegativeMacdCrossover(data, SCAN_DAYS);
    posCross := CheckPositiveMacdBearishCrossover(data, SCAN_DAYS);
  }

  /** run_macd_screener: for every non-empty download, add the MACD columns,
      run both scanners over the last 100 pairs, and record the latest date of
      each kind of crossover that was found. */
  method RunMacdScreener(universe: seq<Download>) returns (bullish: seq<CrossoverRow>, bearish: seq<CrossoverRow>)
    ensures bullish == CrossoverTable(BullishNegative, universe, SCAN_DAYS)
    ensures bearish == CrossoverTable(BearishPositive, universe, SCAN_DAYS)
  {
    bullish, bearish := [], [];
    for k := 0 to |universe|
      invariant bullish == CrossoverTable(BullishNegative, universe[..k], SCAN_DAYS)
      invariant bearish == CrossoverTable(BearishPositive, universe[..k], SCAN_DAYS)
    {
      var d := universe[k];
      ConcatSnoc(universe, CrossoverRowsOf(BullishNegative, SCAN_DAYS), k);
      ConcatSnoc(universe, CrossoverRowsOf(BearishPositive, SCAN_DAYS), k);
      if |d.bars| == 0 {
        continue;
      }
      var negCross, posCross := ScanTicker(d.bars);
      if negCross != [] {
        bullish := bullish + [CrossoverRow(d.ticker, MaxOf(negCross))];
      }
      if posCross != [] {
        bearish := bearish + [CrossoverRow(d.ticker, MaxOf(posCross))];
      }
    }
    assert universe[..|universe|] == universe;
  }

  /** The email goes out unless all three tables are empty. */
  predicate SendsEmail(bullish: seq<CrossoverRow>, bearish: seq<CrossoverRow>, touches: seq<SmaRow>) {
    !(bullish == [] && bearish == [] && touches == [])
  }

  /** The email is sent iff some MACD download has a crossover of either kind in
      its last 100 pairs or some SMA download has a touch in its window. */
  lemma EmailSentIff(macdUniverse: seq<Download>, smaUniverse: seq<Download>)
    ensures SendsEmail(CrossoverTable(BullishNegative, macdUniverse, SCAN_DAYS),
                       CrossoverTable(BearishPositive, macdUniverse, SCAN_DAYS),
                       SmaScreen(smaUniverse))
      <==> (|| (exists d :: d in macdUniverse && TickerCrossovers(BullishNegative, d.bars, SCAN_DAYS) != [])
            || (exists d :: d in macdUniverse && TickerCrossovers(BearishPositive, d.bars, SCAN_DAYS) != [])
            || (exists d :: d in smaUniverse && SmaTouchRows(d.ticker, d.bars) != []))
  {
    CrossoverTableEmpty(BullishNegative, macdUniverse, SCAN_DAYS);
    CrossoverTableEmpty(BearishPositive, macdUniverse, SCAN_DAYS);
    SmaScreenEmpty(smaUniverse);
  }

  /** A MACD table holds one row per ticker when the universe's tickers are
      distinct, so highlighting marks every row of it, in whatever order the
      rows are presented. */
  lemma CrossoverTableFullyHighlighted(kind: Crossover, universe: seq<Download>, rows: seq<CrossoverRow>)
    requires DistinctTickers(universe)
    requires forall r :: r in rows ==> r in CrossoverTable(kind, universe, SCAN_DAYS)
    ensures forall k :: 0 <= k < |rows| ==> Highlight(rows, TickerOf, CrossoverDateOf)[k].1
  {
    forall j, k | 0 <= j < |rows| && 0 <= k < |rows| && TickerOf(rows[j]) == TickerOf(rows[k])
      ensures CrossoverDateOf(rows[j]) == CrossoverDateOf(rows[k])
    {
      CrossoverTableOneRowPerTicker(kind, universe, SCAN_DAYS, rows[j], rows[k]);
    }
    UniformDatesAllMarked(rows, TickerOf, CrossoverDateOf);
  }
}
