/** Bullish_Reversal.py: two-candle bullish reversal patterns (Engulfing and
    Piercing) over the ten most recent bars, the screener table built from
    them, and its email rule. */
module Reversal {
  import opened Bars
  import opened Highlighting

  /** Bars kept by `df.tail(10)`. */
  const RECENT_BARS: nat := 10

  datatype Pattern = BullishEngulfing | Piercing

  /** A detected pattern. Its date is the position of the second candle within
      the re-indexed ten-bar tail, not a calendar date. */
  datatype Signal = Signal(date: nat, pattern: Pattern, prevClose: real, currClose: real)

  /** Previous candle bearish, current bullish, and the current body covers the
      previous one. */
  predicate Engulfing(prev: Bar, curr: Bar): (b: bool)
    // the current body strictly contains the previous one
    ensures b ==> curr.open < prev.close < prev.open < curr.close
  {
    && prev.close < prev.open
    && curr.close > curr.open
    && curr.close > prev.open
    && curr.open < prev.close
  }

  /** Previous candle bearish, current opens below its low and closes above the
      midpoint of its body but below its open. */
  predicate IsPiercing(prev: Bar, curr: Bar): (b: bool)
    // the current close lands inside the previous body, above its close
    ensures b ==> prev.close < curr.close < prev.open
  {
    && prev.close < prev.open
    && curr.open < prev.low
    && curr.close > (prev.open + prev.close) / 2.0
    && curr.close < prev.open
  }

  /** The label of a pair: Engulfing is tested first. */
  function Classify(prev: Bar, curr: Bar): (p: Option<Pattern>)
    // the patterns exclude each other, so the order of the tests is immaterial
    ensures p == Some(BullishEngulfing) <==> Engulfing(prev, curr)
    ensures p == Some(Piercing) <==> IsPiercing(prev, curr)
  {
    PatternsExclusive(prev, curr);
    if Engulfing(prev, curr) then Some(BullishEngulfing)
    else if IsPiercing(prev, curr) then Some(Piercing)
    else None
  }

  /** The last min(n, 10) bars. */
  function RecentBars(bars: seq<Bar>): seq<Bar> {
    if |bars| <= RECENT_BARS then bars else bars[|bars| - RECENT_BARS..]
  }

  /** The signals of the pairs (i - 1, i) for 1 <= i < hi, in increasing i. */
  function SignalsBelow(recent: seq<Bar>, hi: nat): seq<Signal>
    requires 1 <= hi <= |recent|
  {
    if hi == 1 then []
    else
      var i := hi - 1;
      SignalsBelow(recent, i)
        + match Classify(recent[i - 1], recent[i])
          case None => []
          case Some(p) => [Signal(i, p, recent[i - 1].close, recent[i].close)]
  }

  /** What detect_bullish_reversal returns for a bar series. */
  function ReversalSignals(bars: seq<Bar>): (signals: seq<Signal>)
    ensures |signals| < RECENT_BARS
  {
    if |bars| < 2 then []
    else
      var recent := RecentBars(bars);
      SignalsBelowShape(recent, |recent|);
      SignalsBelow(recent, |recent|)
  }

  /** detect_bullish_reversal: no signal for fewer than two bars; otherwise
      classify every adjacent pair of the ten-bar tail. */
  method DetectBullishReversal(bars: seq<Bar>) returns (signals: seq<Signal>)
    ensures signals == ReversalSignals(bars)
  {
    signals := [];
    if |bars| < 2 {
      return;
    }
    var recent := RecentBars(bars);
    for i := 1 to |recent|
      invariant signals == SignalsBelow(recent, i)
    {
      var prevBar, currBar := recent[i - 1], recent[i];
      var engulf := Engulfing(prevBar, currBar);
      var piercing := IsPiercing(prevBar, currBar);
      if engulf || piercing {
        var pattern := if engulf then BullishEngulfing else Piercing;
        signals := signals + [Signal(i, pattern, prevBar.close, currBar.close)];
      }
    }
  }

  /** The two patterns are mutually exclusive: one needs curr.close > prev.open
      and the other curr.close < prev.open. */
  lemma PatternsExclusive(prev: Bar, curr: Bar)
    ensures !(Engulfing(prev, curr) && IsPiercing(prev, curr))
  {
  }

  /** A pair whose first candle is not bearish never yields a signal. */
  lemma NoSignalAfterNonBearishCandle(prev: Bar, curr: Bar)
    requires prev.close >= prev.open
    ensures Classify(prev, curr) == None
  {
  }

  lemma {:induction false} SignalsBelowMembership(recent: seq<Bar>, hi: nat, s: Signal)
    requires 1 <= hi <= |recent|
    ensures s in SignalsBelow(recent, hi) <==>
      exists i :: 1 <= i < hi && Classify(recent[i - 1], recent[i]) == Some(s.pattern)
        && s == Signal(i, s.pattern, recent[i - 1].close, recent[i].close)
  {
    if hi > 1 {
      SignalsBelowMembership(recent, hi - 1, s);
    }
  }

  lemma {:induction false} SignalsBelowShape(recent: seq<Bar>, hi: nat)
    requires 1 <= hi <= |recent|
    ensures |SignalsBelow(recent, hi)| <= hi - 1
    ensures forall a :: 0 <= a < |SignalsBelow(recent, hi)| ==> 1 <= SignalsBelow(recent, hi)[a].date < hi
    ensures forall a, b :: 0 <= a < b < |SignalsBelow(recent, hi)| ==>
      SignalsBelow(recent, hi)[a].date < SignalsBelow(recent, hi)[b].date
  {
    if hi > 1 {
      SignalsBelowShape(recent, hi - 1);
    }
  }

  /** A signal is emitted iff its pair (i - 1, i) of the ten-bar tail matches a
      pattern; the signal carries i, the pattern and both closes. */
  lemma ReversalSignalsMembership(bars: seq<Bar>, s: Signal)
    ensures s in ReversalSignals(bars) <==>
      (&& |bars| >= 2
       && exists i :: 1 <= i < |RecentBars(bars)|
            && Classify(RecentBars(bars)[i - 1], RecentBars(bars)[i]) == Some(s.pattern)
            && s == Signal(i, s.pattern, RecentBars(bars)[i - 1].close, RecentBars(bars)[i].close))
  {
    if |bars| >= 2 {
      SignalsBelowMembership(RecentBars(bars), |RecentBars(bars)|, s);
    }
  }

  /** At most nine signals, one per qualifying pair: their positions are
      strictly increasing and lie in 1 .. min(n, 10) - 1. */
  lemma ReversalSignalsShape(bars: seq<Bar>)
    ensures |ReversalSignals(bars)| <= RECENT_BARS - 1
    ensures forall a :: 0 <= a < |ReversalSignals(bars)| ==>
      1 <= ReversalSignals(bars)[a].date < |RecentBars(bars)| <= RECENT_BARS
    ensures forall a, b :: 0 <= a < b < |ReversalSignals(bars)| ==>
      ReversalSignals(bars)[a].date < ReversalSignals(bars)[b].date
  {
    if |bars| >= 2 {
      SignalsBelowShape(RecentBars(bars), |RecentBars(bars)|);
    }
  }

  /** A bearish candle followed by an engulfing bullish one yields exactly one
      Bullish Engulfing signal with both closes. */
  lemma EngulfingExample()
    ensures ReversalSignals([Bar(0, 10.0, 11.0, 9.0, 9.5), Bar(1, 9.2, 12.0, 9.0, 11.0)])
      == [Signal(1, BullishEngulfing, 9.5, 11.0)]
  {
    var bars := [Bar(0, 10.0, 11.0, 9.0, 9.5), Bar(1, 9.2, 12.0, 9.0, 11.0)];
    assert RecentBars(bars) == bars;
    assert Classify(bars[0], bars[1]) == Some(BullishEngulfing);
    assert SignalsBelow(bars, 1) == [];
    assert SignalsBelow(bars, 2) == [Signal(1, BullishEngulfing, 9.5, 11.0)];
  }

  // ---------------------------------------------------------------------------
  // The screener table.

  /** A result row: the ticker, the date of its last bar, and the pattern. */
  datatype ReversalRow = ReversalRow(ticker: string, date: int, pattern: Pattern, prevClose: real, currClose: real)

  /** The rows for a list of signals, all stamped with one ticker and date. */
  function StampRows(ticker: string, date: int, signals: seq<Signal>): seq<ReversalRow> {
    if signals == [] then []
    else
      var s := signals[|signals| - 1];
      StampRows(ticker, date, signals[..|signals| - 1]) + [ReversalRow(ticker, date, s.pattern, s.prevClose, s.currClose)]
  }

  /** The rows a download contributes: none when empty, else one per signal. */
  function RowsFor(d: Download): seq<ReversalRow> {
    if |d.bars| == 0 then [] else StampRows(d.ticker, d.bars[|d.bars| - 1].date, ReversalSignals(d.bars))
  }

  /** The result table of a screener pass, download by download. */
  function ReversalTable(universe: seq<Download>): seq<ReversalRow> {
    Concat(universe, RowsFor)
  }

  /** The inner loop of the screener: one row per signal, stamped with the
      ticker and its last bar date, appended in signal order. */
  method AppendSignalRows(results: seq<ReversalRow>, ticker: string, lastDate: int, patterns: seq<Signal>)
    returns (out: seq<ReversalRow>)
    ensures out == results + StampRows(ticker, lastDate, patterns)
  {
    out := results;
    for j := 0 to |patterns|
      invariant out == results + StampRows(ticker, lastDate, patterns[..j])
    {
      var p := patterns[j];
      assert patterns[..j + 1][..j] == patterns[..j];
      out := out + [ReversalRow(ticker, lastDate, p.pattern, p.prevClose, p.currClose)];
    }
    assert patterns[..|patterns|] == patterns;
  }

  /** run_bullish_reversal_screener: one row per signal of every non-empty
      download, each carrying the download's last bar date. */
  method RunBullishReversalScreener(universe: seq<Download>) returns (results: seq<ReversalRow>)
    ensures results == ReversalTable(universe)
  {
    results := [];
    for k := 0 to |universe|
      invariant results == ReversalTable(universe[..k])
    {
      var d := universe[k];
      ConcatSnoc(universe, RowsFor, k);
      if |d.bars| == 0 {
        continue;
      }
      var patterns := DetectBullishReversal(d.bars);
      if patterns != [] {
        results := AppendSignalRows(results, d.ticker, d.bars[|d.bars| - 1].date, patterns);
      }
    }
    assert universe[..|universe|] == universe;
  }

  lemma {:induction false} StampRowsMembership(ticker: string, date: int, signals: seq<Signal>, r: ReversalRow)
    ensures r in StampRows(ticker, date, signals) <==>
      exists s :: s in signals && r == ReversalRow(ticker, date, s.pattern, s.prevClose, s.currClose)
  {
    if signals != [] {
      var init := signals[..|signals| - 1];
      StampRowsMembership(ticker, date, init, r);
      assert signals == init + [signals[|signals| - 1]];
    }
  }

  /** The rows of one download are its signals, stamped with its ticker and
      its last bar date. */
  lemma RowsForMembership(d: Download, r: ReversalRow)
    ensures r in RowsFor(d) <==>
      (&& |d.bars| > 0
       && exists s :: s in ReversalSignals(d.bars)
            && r == ReversalRow(d.ticker, d.bars[|d.bars| - 1].date, s.pattern, s.prevClose, s.currClose))
  {
    if |d.bars| > 0 {
      StampRowsMembership(d.ticker, d.bars[|d.bars| - 1].date, ReversalSignals(d.bars), r);
    }
  }

  /** Every row comes from a signal of some non-empty download and carries that
      download's ticker and last bar date, not the pattern's position. */
  lemma ReversalTableMembership(universe: seq<Download>, r: ReversalRow)
    ensures r in ReversalTable(universe) <==>
      exists d, s :: d in universe && |d.bars| > 0 && s in ReversalSignals(d.bars)
        && r == ReversalRow(d.ticker, d.bars[|d.bars| - 1].date, s.pattern, s.prevClose, s.currClose)
  {
    ConcatMembership(universe, RowsFor, r);
    forall d | d in universe {
      RowsForMembership(d, r);
    }
  }

  function RowTicker(r: ReversalRow): string { r.ticker }

  function RowDate(r: ReversalRow): int { r.date }

  /** With distinct tickers all rows of a ticker share its last bar date, so
      highlighting marks every row, in whatever order the rows are presented. */
  lemma ReversalTableFullyHighlighted(universe: seq<Download>, rows: seq<ReversalRow>)
    requires DistinctTickers(universe)
    requires forall r :: r in rows ==> r in ReversalTable(universe)
    ensures forall k :: 0 <= k < |rows| ==> Highlight(rows, RowTicker, RowDate)[k].1
  {
    forall j, k | 0 <= j < |rows| && 0 <= k < |rows| && RowTicker(rows[j]) == RowTicker(rows[k])
      ensures RowDate(rows[j]) == RowDate(rows[k])
    {
      ReversalTableMembership(universe, rows[j]);
      ReversalTableMembership(universe, rows[k]);
    }
    UniformDatesAllMarked(rows, RowTicker, RowDate);
  }

  /** The email is sent only when the table is non-empty. */
  predicate SendsEmail(results: seq<ReversalRow>) {
    results != []
  }

  /** The email is sent iff some non-empty download has a pattern among its ten
      most recent bars. */
  lemma EmailSentIff(universe: seq<Download>)
    ensures SendsEmail(ReversalTable(universe)) <==>
      exists d :: d in universe && |d.bars| > 0 && ReversalSignals(d.bars) != []
  {
    if SendsEmail(ReversalTable(universe)) {
      var r := ReversalTable(universe)[0];
      ReversalTableMembership(universe, r);
    }
    if exists d :: d in universe && |d.bars| > 0 && ReversalSignals(d.bars) != [] {
      var d :| d in universe && |d.bars| > 0 && ReversalSignals(d.bars) != [];
      var s := ReversalSignals(d.bars)[0];
      ReversalTableMembership(universe, ReversalRow(d.ticker, d.bars[|d.bars| - 1].date, s.pattern, s.prevClose, s.currClose));
    }
  }
}
