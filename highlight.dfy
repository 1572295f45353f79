/** highlight_most_recent: a copy of a result table in which a row is marked
    when its date is the latest date among the rows of its ticker. The table is
    generic in its row type; the caller says which column is the ticker and
    which is the date. */
module Highlighting {
  import opened Bars

  /** The latest date among the rows of ticker t (a groupby-max), or None when
      no row carries t. */
  function LatestDate<R>(rows: seq<R>, tickerOf: R -> string, dateOf: R -> int, t: string): (m: Option<int>)
    ensures m.None? <==> forall k :: 0 <= k < |rows| ==> tickerOf(rows[k]) != t
    ensures m.Some? ==> exists k :: 0 <= k < |rows| && tickerOf(rows[k]) == t && dateOf(rows[k]) == m.value
    ensures m.Some? ==> forall k :: 0 <= k < |rows| && tickerOf(rows[k]) == t ==> dateOf(rows[k]) <= m.value
  {
    if rows == [] then None
    else
      var init := rows[..|rows| - 1];
      var last := rows[|rows| - 1];
      var rest := LatestDate(init, tickerOf, dateOf, t);
      assert forall k :: 0 <= k < |init| ==> init[k] == rows[k];
      if tickerOf(last) != t then rest
      else if rest.None? || rest.value < dateOf(last) then Some(dateOf(last))
      else rest
  }

  /** Every row kept, in order, each paired with its mark; a row is marked iff
      no row of the same ticker has a later date. */
  function Highlight<R>(rows: seq<R>, tickerOf: R -> string, dateOf: R -> int): (marked: seq<(R, bool)>)
    ensures |marked| == |rows|
    ensures forall k :: 0 <= k < |rows| ==> marked[k].0 == rows[k]
    ensures forall k :: 0 <= k < |rows| ==>
      (marked[k].1 <==> forall j :: 0 <= j < |rows| && tickerOf(rows[j]) == tickerOf(rows[k]) ==> dateOf(rows[j]) <= dateOf(rows[k]))
  {
    seq(|rows|, k requires 0 <= k < |rows| =>
      (rows[k], LatestDate(rows, tickerOf, dateOf, tickerOf(rows[k])) == Some(dateOf(rows[k]))))
  }

  /** Every ticker present in the table has at least one marked row. */
  lemma EveryTickerMarked<R>(rows: seq<R>, tickerOf: R -> string, dateOf: R -> int, k: nat)
    requires k < |rows|
    ensures exists j :: 0 <= j < |rows| && tickerOf(rows[j]) == tickerOf(rows[k]) && Highlight(rows, tickerOf, dateOf)[j].1
  {
    var m := LatestDate(rows, tickerOf, dateOf, tickerOf(rows[k]));
    assert m.Some?;
    var j :| 0 <= j < |rows| && tickerOf(rows[j]) == tickerOf(rows[k]) && dateOf(rows[j]) == m.value;
    assert Highlight(rows, tickerOf, dateOf)[j].1;
  }

  /** When all rows of each ticker carry the same date, every row is marked. */
  lemma UniformDatesAllMarked<R>(rows: seq<R>, tickerOf: R -> string, dateOf: R -> int)
    requires forall j, k :: 0 <= j < |rows| && 0 <= k < |rows| && tickerOf(rows[j]) == tickerOf(rows[k]) ==> dateOf(rows[j]) == dateOf(rows[k])
    ensures forall k :: 0 <= k < |rows| ==> Highlight(rows, tickerOf, dateOf)[k].1
  {
  }
}
