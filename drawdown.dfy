/** Stats.py: one-day drops of at least 3% in an index close series, the
    deepest close of the seven trading days after each drop, and summary
    statistics of the further declines. */
module Drawdown {
  import opened Bars

  /** A one-day return at or below -3% triggers an event. */
  const TRIGGER_THRESH: real := -0.03
  /** The forward window: the seven rows after the trigger. */
  const WINDOW: nat := 7

  /** Closes are prices, so positive; every return and correction divides by one. */
  predicate PositiveCloses(bars: seq<Bar>) {
    forall t :: 0 <= t < |bars| ==> bars[t].close > 0.0
  }

  /** close[t] / close[t - 1] - 1; row 0 has no previous close. */
  function OneDayReturn(bars: seq<Bar>, t: nat): (ret: real)
    requires PositiveCloses(bars)
    requires 0 < t < |bars|
    ensures -1.0 < ret
    ensures ret <= TRIGGER_THRESH <==> bars[t].close <= 0.97 * bars[t - 1].close
  {
    var q := bars[t].close / bars[t - 1].close;
    assert q * bars[t - 1].close == bars[t].close;
    q - 1.0
  }

  /** Row t closed at least 3% below the row before it. */
  predicate IsTrigger(bars: seq<Bar>, t: nat): (b: bool)
    requires PositiveCloses(bars)
    requires t < |bars|
    ensures b <==> 0 < t && bars[t].close <= 0.97 * bars[t - 1].close
  {
    t > 0 && OneDayReturn(bars, t) <= TRIGGER_THRESH
  }

  /** The trigger positions among rows 0 .. hi - 1, ascending. */
  function TriggersBelow(bars: seq<Bar>, hi: nat): (ts: seq<nat>)
    requires PositiveCloses(bars)
    requires hi <= |bars|
    ensures forall k :: 0 <= k < |ts| ==> 0 < ts[k] < hi
  {
    if hi == 0 then []
    else TriggersBelow(bars, hi - 1) + (if IsTrigger(bars, hi - 1) then [hi - 1] else [])
  }

  /** The rows selected by `df[df["one_day_ret"] <= trigger_thresh]`. */
  function Triggers(bars: seq<Bar>): (ts: seq<nat>)
    requires PositiveCloses(bars)
    ensures forall k :: 0 <= k < |ts| ==> 0 < ts[k] < |bars|
  {
    TriggersBelow(bars, |bars|)
  }

  lemma {:induction false} TriggersBelowMembership(bars: seq<Bar>, hi: nat, i: nat)
    requires PositiveCloses(bars)
    requires hi <= |bars|
    ensures i in TriggersBelow(bars, hi) <==> i < hi && IsTrigger(bars, i)
  {
    if hi > 0 {
      TriggersBelowMembership(bars, hi - 1, i);
    }
  }

  lemma {:induction false} TriggersBelowAscending(bars: seq<Bar>, hi: nat)
    requires PositiveCloses(bars)
    requires hi <= |bars|
    ensures forall a, b :: 0 <= a < b < |TriggersBelow(bars, hi)| ==> TriggersBelow(bars, hi)[a] < TriggersBelow(bars, hi)[b]
  {
    if hi > 0 {
      var before := TriggersBelow(bars, hi - 1);
      TriggersBelowAscending(bars, hi - 1);
      forall a | 0 <= a < |before| ensures before[a] < hi - 1 {
        TriggersBelowMembership(bars, hi - 1, before[a]);
      }
    }
  }

  /** Row t is a trigger iff t >= 1 and its return is at most -3%, so row 0
      never is; triggers are listed in ascending row order. */
  lemma TriggersSpec(bars: seq<Bar>, i: nat)
    requires PositiveCloses(bars)
    ensures i in Triggers(bars) <==>
      1 <= i < |bars| && bars[i].close / bars[i - 1].close - 1.0 <= TRIGGER_THRESH
    ensures forall a, b :: 0 <= a < b < |Triggers(bars)| ==> Triggers(bars)[a] < Triggers(bars)[b]
  {
    TriggersBelowMembership(bars, |bars|, i);
    TriggersBelowAscending(bars, |bars|);
  }

  /** One row of the result table. */
  datatype Event = Event(date: int, oneDayRetPct: real, next7MinClose: real, correctionPct: real)

  /** The lowest close among rows i + 1 .. i + 7; the trigger row is excluded. */
  function ForwardMin(bars: seq<Bar>, i: nat): real
    requires i + WINDOW < |bars|
  {
    MinReal(Closes(bars)[i + 1 .. i + WINDOW + 1])
  }

  /** The event of a trigger row with a complete forward window. */
  function EventAt(bars: seq<Bar>, i: nat): Event
    requires PositiveCloses(bars)
    requires 0 < i && i + WINDOW < |bars|
  {
    var closeT := bars[i].close;
    var minFuture := ForwardMin(bars, i);
    var correction := (minFuture - closeT) / closeT;
    Event(bars[i].date, OneDayReturn(bars, i) * 100.0, minFuture, correction * 100.0)
  }

  /** The events of trigger positions ts, skipping those without seven later rows. */
  function EventsFor(bars: seq<Bar>, ts: seq<nat>): seq<Event>
    requires PositiveCloses(bars)
    requires forall k :: 0 <= k < |ts| ==> 0 < ts[k] < |bars|
  {
    if ts == [] then []
    else
      var i := ts[|ts| - 1];
      EventsFor(bars, ts[..|ts| - 1]) + (if i + WINDOW >= |bars| then [] else [EventAt(bars, i)])
  }

  /** All events of a close series. */
  function Events(bars: seq<Bar>): seq<Event>
    requires PositiveCloses(bars)
  {
    EventsFor(bars, Triggers(bars))
  }

  /** The body of the loop for a retained trigger: the forward minimum, the
      correction relative to the trigger close, and the row recorded. */
  method MeasureEvent(bars: seq<Bar>, i: nat) returns (e: Event)
    requires PositiveCloses(bars)
    requires 0 < i && i + WINDOW < |bars|
    ensures e == EventAt(bars, i)
  {
    var closeT := bars[i].close;
    var minFuture := ForwardMin(bars, i);
    var correction := (minFuture - closeT) / closeT;
    e := Event(bars[i].date, OneDayReturn(bars, i) * 100.0, minFuture, correction * 100.0);
  }

  /** The loop over the trigger rows: skip those within seven rows of the end,
      and record the forward minimum and the correction of the others. */
  method AnalyzeDrawdowns(bars: seq<Bar>) returns (events: seq<Event>)
    requires PositiveCloses(bars)
    ensures events == Events(bars)
  {
    var triggers := Triggers(bars);
    events := [];
    for k := 0 to |triggers|
      invariant events == EventsFor(bars, triggers[..k])
    {
      var i := triggers[k];
      assert triggers[..k + 1][..k] == triggers[..k];
      if i + WINDOW >= |bars| {
        continue;
      }
      var e := MeasureEvent(bars, i);
      events := events + [e];
    }
    assert triggers[..|triggers|] == triggers;
  }

  lemma {:induction false} EventsForMembership(bars: seq<Bar>, ts: seq<nat>, e: Event)
    requires PositiveCloses(bars)
    requires forall k :: 0 <= k < |ts| ==> 0 < ts[k] < |bars|
    ensures e in EventsFor(bars, ts) <==> exists i :: i in ts && i + WINDOW < |bars| && e == EventAt(bars, i)
  {
    if ts != [] {
      var init := ts[..|ts| - 1];
      EventsForMembership(bars, init, e);
      assert ts == init + [ts[|ts| - 1]];
    }
  }

  /** An event is recorded iff it is the event of a trigger row that has all
      seven forward rows; triggers too close to the end are dropped. */
  lemma EventsMembership(bars: seq<Bar>, e: Event)
    requires PositiveCloses(bars)
    ensures e in Events(bars) <==>
      exists i :: 0 < i && i + WINDOW < |bars| && IsTrigger(bars, i) && e == EventAt(bars, i)
  {
    EventsForMembership(bars, Triggers(bars), e);
    forall i: nat | i < |bars| ensures i in Triggers(bars) <==> IsTrigger(bars, i) {
      TriggersBelowMembership(bars, |bars|, i);
    }
  }

  /** Every event of trigger positions below row i is dated before row i. */
  lemma {:induction false} EventsForDatedBefore(bars: seq<Bar>, ts: seq<nat>, i: nat)
    requires PositiveCloses(bars) && Chronological(bars)
    requires forall k :: 0 <= k < |ts| ==> 0 < ts[k] < i < |bars|
    ensures forall a :: 0 <= a < |EventsFor(bars, ts)| ==> EventsFor(bars, ts)[a].date < bars[i].date
  {
    if ts != [] {
      var init := ts[..|ts| - 1];
      assert forall k :: 0 <= k < |init| ==> init[k] == ts[k];
      EventsForDatedBefore(bars, init, i);
    }
  }

  lemma {:induction false} EventsForChronological(bars: seq<Bar>, ts: seq<nat>)
    requires PositiveCloses(bars) && Chronological(bars)
    requires forall k :: 0 <= k < |ts| ==> 0 < ts[k] < |bars|
    requires forall a, b :: 0 <= a < b < |ts| ==> ts[a] < ts[b]
    ensures forall a, b :: 0 <= a < b < |EventsFor(bars, ts)| ==> EventsFor(bars, ts)[a].date < EventsFor(bars, ts)[b].date
  {
    if ts != [] {
      var init := ts[..|ts| - 1];
      var i := ts[|ts| - 1];
      forall k | 0 <= k < |init| ensures 0 < init[k] < i < |bars| {
        assert init[k] == ts[k] && ts[k] < ts[|ts| - 1];
      }
      EventsForChronological(bars, init);
      EventsForDatedBefore(bars, init, i);
    }
  }

  /** Events follow the chronological order of their trigger days. */
  lemma EventsChronological(bars: seq<Bar>)
    requires PositiveCloses(bars) && Chronological(bars)
    ensures forall a, b :: 0 <= a < b < |Events(bars)| ==> Events(bars)[a].date < Events(bars)[b].date
  {
    TriggersBelowAscending(bars, |bars|);
    EventsForChronological(bars, Triggers(bars));
  }

  /** The forward minimum is the close of one of rows i + 1 .. i + 7 and is at
      most each of them. */
  lemma ForwardMinSpec(bars: seq<Bar>, i: nat)
    requires i + WINDOW < |bars|
    ensures exists j :: i < j <= i + WINDOW && bars[j].close == ForwardMin(bars, i)
    ensures forall j :: i < j <= i + WINDOW ==> ForwardMin(bars, i) <= bars[j].close
  {
    var w := Closes(bars)[i + 1 .. i + WINDOW + 1];
    assert forall k :: 0 <= k < |w| ==> w[k] == bars[i + 1 + k].close;
    var k :| 0 <= k < |w| && w[k] == ForwardMin(bars, i);
    assert bars[i + 1 + k].close == ForwardMin(bars, i);
    forall j | i < j <= i + WINDOW ensures ForwardMin(bars, i) <= bars[j].close {
      assert w[j - i - 1] == bars[j].close;
    }
  }

  /** The further decline of an event, as a positive percentage. */
  function Decline(e: Event): real {
    -e.correctionPct
  }

  lemma CorrectionPctSign(minFuture: real, closeT: real)
    requires closeT > 0.0 && minFuture > 0.0
    ensures (minFuture - closeT) / closeT * 100.0 < 0.0 <==> minFuture < closeT
    ensures -100.0 < (minFuture - closeT) / closeT * 100.0
  {
    var q := (minFuture - closeT) / closeT;
    assert q * closeT == minFuture - closeT;
    if q <= -1.0 {
      assert false;
    }
    if minFuture < closeT {
      assert q < 0.0;
    } else {
      assert q >= 0.0;
    }
  }

  /** The correction is negative iff the forward minimum is below the trigger
      close, and with positive prices the decline stays under 100%. */
  lemma CorrectionSign(bars: seq<Bar>, i: nat)
    requires PositiveCloses(bars)
    requires 0 < i && i + WINDOW < |bars|
    ensures EventAt(bars, i).correctionPct < 0.0 <==> EventAt(bars, i).next7MinClose < bars[i].close
    ensures Decline(EventAt(bars, i)) < 100.0
  {
    ForwardMinSpec(bars, i);
    CorrectionPctSign(ForwardMin(bars, i), bars[i].close);
  }

  // ---------------------------------------------------------------------------
  // Summary statistics.

  datatype Summary = Summary(count: nat, meanDecline: real, maxDecline: real, pctGe5: real, pctGe10: real)

  function Declines(events: seq<Event>): (r: seq<real>)
    ensures |r| == |events|
    ensures forall k :: 0 <= k < |events| ==> r[k] == Decline(events[k])
  {
    seq(|events|, k requires 0 <= k < |events| => Decline(events[k]))
  }

  /** How many values are at least th. */
  function CountAtLeast(xs: seq<real>, th: real): nat {
    if xs == [] then 0
    else CountAtLeast(xs[..|xs| - 1], th) + (if xs[|xs| - 1] >= th then 1 else 0)
  }

  /** `(xs >= th).mean() * 100`. */
  function PercentAtLeast(xs: seq<real>, th: real): real
    requires xs != []
  {
    CountAtLeast(xs, th) as real / |xs| as real * 100.0
  }

  /** The statistics of a non-empty event table; none for an empty one. */
  function Summarize(events: seq<Event>): (s: Option<Summary>)
    ensures s.None? <==> events == []
  {
    if events == [] then None
    else
      var d := Declines(events);
      Some(Summary(|events|, Sum(d) / |d| as real, MaxReal(d), PercentAtLeast(d, 5.0), PercentAtLeast(d, 10.0)))
  }

  lemma {:induction false} CountAtLeastBounds(xs: seq<real>, lo: real, hi: real)
    requires lo <= hi
    ensures CountAtLeast(xs, hi) <= CountAtLeast(xs, lo) <= |xs|
  {
    if xs != [] {
      CountAtLeastBounds(xs[..|xs| - 1], lo, hi);
    }
  }

  lemma PercentOrdered(c1: nat, c2: nat, n: nat)
    requires c1 <= c2 <= n && n > 0
    ensures 0.0 <= c1 as real / n as real * 100.0 <= c2 as real / n as real * 100.0 <= 100.0
  {
    var q1 := c1 as real / n as real;
    var q2 := c2 as real / n as real;
    assert q1 * n as real == c1 as real;
    assert q2 * n as real == c2 as real;
    assert 0.0 <= q1 <= q2 <= 1.0;
  }

  lemma MeanAtMostMax(total: real, n: nat, m: real)
    requires n > 0 && total <= n as real * m
    ensures total / n as real <= m
  {
    var q := total / n as real;
    assert q * n as real == total;
  }

  /** The maximum decline is attained by an event and bounds every event's. */
  lemma SummaryMaxDecline(events: seq<Event>)
    requires events != []
    ensures forall e :: e in events ==> Decline(e) <= Summarize(events).value.maxDecline
    ensures exists e :: e in events && Decline(e) == Summarize(events).value.maxDecline
  {
    var d := Declines(events);
    var m := Summarize(events).value.maxDecline;
    assert m == MaxReal(d);
    forall e | e in events ensures Decline(e) <= m {
      var k :| 0 <= k < |events| && events[k] == e;
      assert d[k] == Decline(e);
    }
    var k :| 0 <= k < |d| && d[k] == m;
    assert events[k] in events;
  }

  /** The mean decline is at most the maximum decline. */
  lemma SummaryMeanAtMostMax(events: seq<Event>)
    requires events != []
    ensures Summarize(events).value.meanDecline <= Summarize(events).value.maxDecline
  {
    var d := Declines(events);
    var m := MaxReal(d);
    assert Summarize(events).value.maxDecline == m;
    assert Summarize(events).value.meanDecline == Sum(d) / |d| as real;
    SumBoundedAbove(d, m);
    MeanAtMostMax(Sum(d), |d|, m);
  }

  /** Both shares are percentages, and the 10% share never exceeds the 5% share. */
  lemma SummaryPercentages(events: seq<Event>)
    requires events != []
    ensures 0.0 <= Summarize(events).value.pctGe10 <= Summarize(events).value.pctGe5 <= 100.0
  {
    var d := Declines(events);
    assert Summarize(events).value.pctGe5 == PercentAtLeast(d, 5.0);
    assert Summarize(events).value.pctGe10 == PercentAtLeast(d, 10.0);
    CountAtLeastBounds(d, 5.0, 10.0);
    PercentOrdered(CountAtLeast(d, 10.0), CountAtLeast(d, 5.0), |d|);
  }

  /** With events there is a summary: count is the number of events, the maximum
      decline is attained and bounds every decline and the mean, and
      0 <= pct_ge_10 <= pct_ge_5 <= 100. */
  lemma SummaryBounds(events: seq<Event>)
    requires events != []
    ensures Summarize(events).Some?
    ensures Summarize(events).value.count == |events|
    ensures forall e :: e in events ==> Decline(e) <= Summarize(events).value.maxDecline
    ensures exists e :: e in events && Decline(e) == Summarize(events).value.maxDecline
    ensures Summarize(events).value.meanDecline <= Summarize(events).value.maxDecline
    ensures 0.0 <= Summarize(events).value.pctGe10 <= Summarize(events).value.pctGe5 <= 100.0
  {
    SummaryMaxDecline(events);
    SummaryMeanAtMostMax(events);
    SummaryPercentages(events);
  }

  /** The whole script: no statistics without a retained event; otherwise the
      summary of the event table. */
  method Analyze(bars: seq<Bar>) returns (events: seq<Event>, summary: Option<Summary>)
    requires PositiveCloses(bars)
    ensures events == Events(bars)
    ensures summary.None? <==> events == []
    ensures summary == Summarize(events)
  {
    events := AnalyzeDrawdowns(bars);
    summary := Summarize(events);
  }
}
