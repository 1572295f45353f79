/** macd_negative_crossover_email_csv_env.py: the negative-territory MACD
    screener, which keeps only the bullish table, and its two-table email rule.
    Its calculate_macd and check_negative_macd_crossover are the same as
    MACD_SMA.py's and are modelled once, in modules Smoothing and Macd. */
module MacdEmail {
  import opened Bars
  import opened Smoothing
  import opened Macd
  import opened SmaTouch

  /** run_macd_screener: one row per download that has a bullish negative
      crossover in its last 100 pairs, holding the latest such date. */
  method RunMacdScreener(universe: seq<Download>) returns (results: seq<CrossoverRow>)
    ensures results == CrossoverTable(BullishNegative, universe, SCAN_DAYS)
  {
    results := [];
    for k := 0 to |universe|
      invariant results == CrossoverTable(BullishNegative, universe[..k], SCAN_DAYS)
    {
      var d := universe[k];
      ConcatSnoc(universe, CrossoverRowsOf(BullishNegative, SCAN_DAYS), k);
      if |d.bars| == 0 {
        continue;
      }
      var data := new PriceFrame(d.bars);
      data.CalculateMacd(SHORT_SPAN, LONG_SPAN, SIGNAL_SPAN);
      var crossoverDates := CheckNegativeMacdCrossover(data, SCAN_DAYS);
      if crossoverDates != [] {
        results := results + [CrossoverRow(d.ticker, MaxOf(crossoverDates))];
      }
    }
    assert universe[..|universe|] == universe;
  }

  /** The email goes out when at least one of the two tables is non-empty. */
  predicate SendsEmail(macdRows: seq<CrossoverRow>, smaRows: seq<SmaRow>) {
    macdRows != [] || smaRows != []
  }

  /** The email is sent iff some MACD download has a bullish negative crossover
      in its last 100 pairs or some SMA download has a touch in its window. */
  lemma EmailSentIff(macdUniverse: seq<Download>, smaUniverse: seq<Download>)
    ensures SendsEmail(CrossoverTable(BullishNegative, macdUniverse, SCAN_DAYS), SmaScreen(smaUniverse))
      <==> (|| (exists d :: d in macdUniverse && TickerCrossovers(BullishNegative, d.bars, SCAN_DAYS) != [])
            || (exists d :: d in smaUniverse && SmaTouchRows(d.ticker, d.bars) != []))
  {
    CrossoverTableEmpty(BullishNegative, macdUniverse, SCAN_DAYS);
    SmaScreenEmpty(smaUniverse);
  }
}
