/** Daily price bars, the downloads the screeners iterate over, and the small
    sequence helpers every indicator in the engine shares. */
module Bars {

  datatype Option<+T> = None | Some(value: T)

  /** One daily OHLC bar. A date is a day number: later days are larger. */
  datatype Bar = Bar(date: int, open: real, high: real, low: real, close: real)

  /** What a market-data fetch returned for one ticker. A fetch that failed or
      came back empty is an empty bar sequence: the screeners skip both alike. */
  datatype Download = Download(ticker: string, bars: seq<Bar>)

  /** Bars ordered by strictly increasing date, as a fetch returns them. */
  ghost predicate Chronological(bars: seq<Bar>) {
    forall j, k :: 0 <= j < k < |bars| ==> bars[j].date < bars[k].date
  }

  ghost predicate StrictlyIncreasing(s: seq<int>) {
    forall a, b :: 0 <= a < b < |s| ==> s[a] < s[b]
  }

  ghost predicate StrictlyDecreasing(s: seq<int>) {
    forall a, b :: 0 <= a < b < |s| ==> s[a] > s[b]
  }

  /** No two downloads of the universe carry the same ticker. */
  ghost predicate DistinctTickers(universe: seq<Download>) {
    forall d1, d2 :: d1 in universe && d2 in universe && d1.ticker == d2.ticker ==> d1 == d2
  }

  /** The close column of a bar series. */
  function Closes(bars: seq<Bar>): (r: seq<real>)
    ensures |r| == |bars|
    ensures forall k :: 0 <= k < |bars| ==> r[k] == bars[k].close
  {
    seq(|bars|, k requires 0 <= k < |bars| => bars[k].close)
  }

  /** The date index of a bar series. */
  function Dates(bars: seq<Bar>): (r: seq<int>)
    ensures |r| == |bars|
    ensures forall k :: 0 <= k < |bars| ==> r[k] == bars[k].date
  {
    seq(|bars|, k requires 0 <= k < |bars| => bars[k].date)
  }

  lemma ChronologicalDates(bars: seq<Bar>)
    requires Chronological(bars)
    ensures StrictlyIncreasing(Dates(bars))
  {
  }

  function Abs(x: real): real {
    if x < 0.0 then -x else x
  }

  function Sum(s: seq<real>): real {
    if s == [] then 0.0 else Sum(s[..|s| - 1]) + s[|s| - 1]
  }

  /** Python's max() over a non-empty list of dates. */
  function MaxOf(s: seq<int>): (m: int)
    requires s != []
    ensures m in s
    ensures forall k :: 0 <= k < |s| ==> s[k] <= m
  {
    if |s| == 1 then s[0]
    else
      var rest := MaxOf(s[1..]);
      if s[0] >= rest then s[0] else rest
  }

  /** The largest value of a non-empty column of reals. It is MaxOf over reals:
      Dafny has no type parameter ranging over ordered types, and a generic
      version taking an order relation would need that relation's totality and
      transitivity as preconditions at every call. */
  function MaxReal(s: seq<real>): (m: real)
    requires s != []
    ensures m in s
    ensures forall k :: 0 <= k < |s| ==> s[k] <= m
  {
    if |s| == 1 then s[0]
    else
      var rest := MaxReal(s[1..]);
      if s[0] >= rest then s[0] else rest
  }

  /** The smallest value of a non-empty column of reals. */
  function MinReal(s: seq<real>): (m: real)
    requires s != []
    ensures m in s
    ensures forall k :: 0 <= k < |s| ==> m <= s[k]
  {
    if |s| == 1 then s[0]
    else
      var rest := MinReal(s[1..]);
      if s[0] <= rest then s[0] else rest
  }

  /** The maximum of a list whose entries are newest-first is its first entry. */
  lemma MaxOfNewestFirst(s: seq<int>)
    requires s != [] && StrictlyDecreasing(s)
    ensures MaxOf(s) == s[0]
  {
  }

  /** A column bounded above by m sums to at most |s| * m. */
  lemma {:induction false} SumBoundedAbove(s: seq<real>, m: real)
    requires forall k :: 0 <= k < |s| ==> s[k] <= m
    ensures Sum(s) <= |s| as real * m
  {
    if s != [] {
      SumBoundedAbove(s[..|s| - 1], m);
    }
  }

  // ---------------------------------------------------------------------------
  // A screener pass: every ticker's rows, appended in universe order.

  /** The rows of a pass over the universe, where rowsOf gives the rows one
      download contributes. */
  function Concat<D, R>(universe: seq<D>, rowsOf: D -> seq<R>): seq<R> {
    if universe == [] then [] else Concat(universe[..|universe| - 1], rowsOf) + rowsOf(universe[|universe| - 1])
  }

  /** Processing one more download appends its rows. */
  lemma ConcatSnoc<D, R>(universe: seq<D>, rowsOf: D -> seq<R>, k: nat)
    requires k < |universe|
    ensures Concat(universe[..k + 1], rowsOf) == Concat(universe[..k], rowsOf) + rowsOf(universe[k])
  {
    assert universe[..k + 1][..k] == universe[..k];
  }

  /** A row is in a pass iff some download contributes it. */
  lemma {:induction false} ConcatMembership<D, R>(universe: seq<D>, rowsOf: D -> seq<R>, r: R)
    ensures r in Concat(universe, rowsOf) <==> exists d :: d in universe && r in rowsOf(d)
  {
    if universe != [] {
      var init := universe[..|universe| - 1];
      ConcatMembership(init, rowsOf, r);
      assert universe == init + [universe[|universe| - 1]];
    }
  }

  /** A pass is empty iff no download contributes a row. */
  lemma {:induction false} ConcatEmpty<D, R>(universe: seq<D>, rowsOf: D -> seq<R>)
    ensures Concat(universe, rowsOf) == [] <==> forall d :: d in universe ==> rowsOf(d) == []
  {
    if universe != [] {
      var init := universe[..|universe| - 1];
      ConcatEmpty(init, rowsOf);
      assert universe == init + [universe[|universe| - 1]];
    }
  }

  /** When each download contributes at most one row, a pass has at most one
      row per download. */
  lemma {:induction false} ConcatAtMostOneEach<D, R>(universe: seq<D>, rowsOf: D -> seq<R>)
    requires forall k :: 0 <= k < |universe| ==> |rowsOf(universe[k])| <= 1
    ensures |Concat(universe, rowsOf)| <= |universe|
  {
    if universe != [] {
      ConcatAtMostOneEach(universe[..|universe| - 1], rowsOf);
    }
  }
}
