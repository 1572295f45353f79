/** Fibbo1.py: the standalone SMA100 touch report. Its scan is the touch screen
    of module SmaTouch; the report is then ordered newest date first and, within
    a date, by ticker, and it is mailed only when it has rows. */
module Fibbo {
  import opened Bars
  import opened SmaTouch

  /** Python's string order: lexicographic by code point, a proper prefix first. */
  predicate TickerLe(a: string, b: string)
    decreases |a|
  {
    a == [] || (b != [] && (a[0] < b[0] || (a[0] == b[0] && TickerLe(a[1..], b[1..]))))
  }

  lemma {:induction false} TickerLeTotal(a: string, b: string)
    ensures TickerLe(a, b) || TickerLe(b, a)
    decreases |a|
  {
    if a != [] && b != [] && a[0] == b[0] {
      TickerLeTotal(a[1..], b[1..]);
    }
  }

  lemma {:induction false} TickerLeTransitive(a: string, b: string, c: string)
    requires TickerLe(a, b) && TickerLe(b, c)
    ensures TickerLe(a, c)
    decreases |a|
  {
    if a != [] && a[0] == b[0] && b[0] == c[0] {
      TickerLeTransitive(a[1..], b[1..], c[1..]);
    }
  }

  lemma {:induction false} TickerLeAntisymmetric(a: string, b: string)
    requires TickerLe(a, b) && TickerLe(b, a)
    ensures a == b
    decreases |a|
  {
    if a != [] {
      TickerLeAntisymmetric(a[1..], b[1..]);
      assert a == [a[0]] + a[1..] && b == [b[0]] + b[1..];
    }
  }

  /** The report order: Date descending, then Ticker ascending. */
  predicate RowBefore(a: SmaRow, b: SmaRow) {
    a.date > b.date || (a.date == b.date && TickerLe(a.ticker, b.ticker))
  }

  lemma RowBeforeTotal(a: SmaRow, b: SmaRow)
    ensures RowBefore(a, b) || RowBefore(b, a)
  {
    TickerLeTotal(a.ticker, b.ticker);
  }

  predicate Ordered(rows: seq<SmaRow>) {
    forall i, j :: 0 <= i < j < |rows| ==> RowBefore(rows[i], rows[j])
  }

  /** Rows whose places in an ordered report could be exchanged agree on both
      sort keys. */
  lemma SameKeysWhenMutuallyBefore(a: SmaRow, b: SmaRow)
    requires RowBefore(a, b) && RowBefore(b, a)
    ensures a.date == b.date && a.ticker == b.ticker
  {
    TickerLeAntisymmetric(a.ticker, b.ticker);
  }

  /** Insertion of one row ahead of the first row it goes before. */
  function Insert(r: SmaRow, rows: seq<SmaRow>): (out: seq<SmaRow>)
    ensures |out| == |rows| + 1
  {
    if rows == [] then [r]
    else if RowBefore(r, rows[0]) then [r] + rows
    else [rows[0]] + Insert(r, rows[1..])
  }

  /** `sort_values(["Date", "Ticker"], ascending=[False, True])`. */
  function SortRows(rows: seq<SmaRow>): (sorted: seq<SmaRow>)
    ensures |sorted| == |rows|
  {
    if rows == [] then [] else Insert(rows[0], SortRows(rows[1..]))
  }

  lemma {:induction false} InsertPermutes(r: SmaRow, rows: seq<SmaRow>)
    ensures multiset(Insert(r, rows)) == multiset(rows) + multiset{r}
  {
    if rows != [] && !RowBefore(r, rows[0]) {
      InsertPermutes(r, rows[1..]);
      assert rows == [rows[0]] + rows[1..];
    }
  }

  lemma {:induction false} InsertOrdered(r: SmaRow, rows: seq<SmaRow>)
    requires Ordered(rows)
    ensures Ordered(Insert(r, rows))
  {
    if rows == [] {
    } else if RowBefore(r, rows[0]) {
      var out := [r] + rows;
      forall i, j | 0 <= i < j < |out| ensures RowBefore(out[i], out[j]) {
        if i == 0 && j > 1 {
          RowBeforeTransitive(r, rows[0], rows[j - 1]);
        }
      }
    } else {
      var head := rows[0];
      var tail := rows[1..];
      InsertOrdered(r, tail);
      InsertPermutes(r, tail);
      RowBeforeTotal(r, head);
      var rest := Insert(r, tail);
      forall k | 0 <= k < |rest| ensures RowBefore(head, rest[k]) {
        assert rest[k] in multiset(rest);
        if rest[k] != r {
          assert rest[k] in multiset(tail);
          var m :| 0 <= m < |tail| && tail[m] == rest[k];
          assert rows[m + 1] == tail[m];
        }
      }
    }
  }

  lemma RowBeforeTransitive(a: SmaRow, b: SmaRow, c: SmaRow)
    requires RowBefore(a, b) && RowBefore(b, c)
    ensures RowBefore(a, c)
  {
    if a.date == b.date && b.date == c.date {
      TickerLeTransitive(a.ticker, b.ticker, c.ticker);
    }
  }

  /** The sorted report is in report order and holds exactly the same rows,
      each as many times as before. */
  lemma {:induction false} SortRowsCorrect(rows: seq<SmaRow>)
    ensures Ordered(SortRows(rows))
    ensures multiset(SortRows(rows)) == multiset(rows)
  {
    if rows != [] {
      SortRowsCorrect(rows[1..]);
      InsertOrdered(rows[0], SortRows(rows[1..]));
      InsertPermutes(rows[0], SortRows(rows[1..]));
      assert rows == [rows[0]] + rows[1..];
    }
  }

  /** The script: scan every ticker, sort a non-empty result, and mail it when
      it is non-empty. */
  method Report(universe: seq<Download>) returns (report: seq<SmaRow>, sendsEmail: bool)
    ensures report == SortRows(SmaScreen(universe))
    ensures sendsEmail <==> report != []
  {
    var rows := RunSmaScreener(universe);
    report := rows;
    if rows != [] {
      report := SortRows(rows);
    }
    SortRowsCorrect(rows);
    sendsEmail := report != [];
  }

  /** The report holds exactly the touch rows of the universe, newest first. */
  lemma ReportContents(universe: seq<Download>, r: SmaRow)
    ensures Ordered(SortRows(SmaScreen(universe)))
    ensures r in SortRows(SmaScreen(universe)) <==> exists d :: d in universe && r in SmaTouchRows(d.ticker, d.bars)
  {
    SortRowsCorrect(SmaScreen(universe));
    SmaScreenMembership(universe, r);
    assert r in SortRows(SmaScreen(universe)) <==> r in multiset(SortRows(SmaScreen(universe)));
  }

  /** A mail goes out iff some ticker with at least 100 bars touched its SMA100
      within the lookback window. */
  lemma EmailSentIff(universe: seq<Download>)
    ensures SortRows(SmaScreen(universe)) != [] <==>
      exists d :: d in universe && SmaTouchRows(d.ticker, d.bars) != []
  {
    SortRowsCorrect(SmaScreen(universe));
    assert |SortRows(SmaScreen(universe))| == |multiset(SmaScreen(universe))|;
    SmaScreenEmpty(universe);
  }
}
