/** Exponential smoothing as pandas computes `Series.ewm(span=s, adjust=False).mean()`,
    and the MACD and signal lines built from it. */
module Smoothing {

  /** Spans of calculate_macd's defaults. */
  const SHORT_SPAN: nat := 12
  const LONG_SPAN: nat := 26
  const SIGNAL_SPAN: nat := 9

  /** The smoothing factor pandas derives from a span: 2 / (span + 1). */
  function Alpha(span: nat): (a: real)
    requires span >= 1
    ensures 0.0 < a <= 1.0
  {
    var d := span as real + 1.0;
    assert 2.0 <= d;
    2.0 / d
  }

  /** The EMA column of xs: the first value is the first input, and each later
      value moves the previous one by alpha times the distance to the new input. */
  function Ema(xs: seq<real>, alpha: real): (r: seq<real>)
    ensures |r| == |xs|
    decreases |xs|
  {
    if |xs| <= 1 then xs
    else
      var prev := Ema(xs[..|xs| - 1], alpha);
      var last := prev[|prev| - 1];
      prev + [last + alpha * (xs[|xs| - 1] - last)]
  }

  /** Element-wise difference of two aligned columns. */
  function Minus(a: seq<real>, b: seq<real>): (r: seq<real>)
    requires |a| == |b|
    ensures |r| == |a|
    ensures forall k :: 0 <= k < |a| ==> r[k] == a[k] - b[k]
  {
    seq(|a|, k requires 0 <= k < |a| => a[k] - b[k])
  }

  /** The MACD line: short-span EMA of the closes minus long-span EMA. */
  function MacdLine(close: seq<real>, short: nat, long: nat): (r: seq<real>)
    requires short >= 1 && long >= 1
    ensures |r| == |close|
  {
    Minus(Ema(close, Alpha(short)), Ema(close, Alpha(long)))
  }

  /** The signal line: the EMA of the MACD line. */
  function SignalLine(close: seq<real>, short: nat, long: nat, signal: nat): (r: seq<real>)
    requires short >= 1 && long >= 1 && signal >= 1
    ensures |r| == |close|
  {
    Ema(MacdLine(close, short, long), Alpha(signal))
  }

  /** The EMA is seeded with the first input (no simple-average warm-up). */
  lemma {:induction false} EmaSeed(xs: seq<real>, alpha: real)
    requires xs != []
    ensures Ema(xs, alpha)[0] == xs[0]
  {
    if |xs| > 1 {
      EmaSeed(xs[..|xs| - 1], alpha);
    }
  }

  /** Every later EMA value is prev + alpha * (x - prev). */
  lemma {:induction false} EmaStep(xs: seq<real>, alpha: real, k: nat)
    requires 0 < k < |xs|
    ensures Ema(xs, alpha)[k] == Ema(xs, alpha)[k - 1] + alpha * (xs[k] - Ema(xs, alpha)[k - 1])
  {
    var n := |xs|;
    if k < n - 1 {
      var init := xs[..n - 1];
      EmaStep(init, alpha, k);
      assert Ema(xs, alpha)[..n - 1] == Ema(init, alpha);
      assert init[k] == xs[k];
    }
  }

  /** One smoothing step moves the previous value towards the input and never past it. */
  lemma SmoothingStepBetween(last: real, x: real, alpha: real, lo: real, hi: real)
    requires 0.0 < alpha <= 1.0
    requires lo <= last <= hi && lo <= x <= hi
    ensures lo <= last + alpha * (x - last) <= hi
  {
    var d := x - last;
    assert alpha * (x - last) == alpha * d;
    if d >= 0.0 {
      assert 0.0 <= alpha * d <= d;
      assert last <= last + alpha * d <= x;
    } else {
      assert d <= alpha * d <= 0.0;
      assert x <= last + alpha * d <= last;
    }
  }

  /** With 0 < alpha <= 1 every EMA value is a convex combination of inputs, so
      it stays within any bounds the inputs keep. */
  lemma {:induction false} EmaWithinBounds(xs: seq<real>, alpha: real, lo: real, hi: real)
    requires 0.0 < alpha <= 1.0
    requires forall k :: 0 <= k < |xs| ==> lo <= xs[k] <= hi
    ensures forall k :: 0 <= k < |xs| ==> lo <= Ema(xs, alpha)[k] <= hi
  {
    var n := |xs|;
    if n > 1 {
      var init := xs[..n - 1];
      assert forall k :: 0 <= k < |init| ==> init[k] == xs[k];
      EmaWithinBounds(init, alpha, lo, hi);
      var prev := Ema(init, alpha);
      assert Ema(xs, alpha)[..n - 1] == prev;
      SmoothingStepBetween(prev[n - 2], xs[n - 1], alpha, lo, hi);
      forall k | 0 <= k < n ensures lo <= Ema(xs, alpha)[k] <= hi {
        if k < n - 1 {
          assert Ema(xs, alpha)[k] == prev[k];
        }
      }
    }
  }

  /** For a constant input every EMA value equals that constant. */
  lemma EmaOfConstant(xs: seq<real>, alpha: real, c: real)
    requires 0.0 < alpha <= 1.0
    requires forall k :: 0 <= k < |xs| ==> xs[k] == c
    ensures forall k :: 0 <= k < |xs| ==> Ema(xs, alpha)[k] == c
  {
    EmaWithinBounds(xs, alpha, c, c);
  }

  /** For a constant close series both EMAs equal the price, so the MACD line and
      the signal line are zero at every bar. */
  lemma ConstantCloseFlatMacd(close: seq<real>, c: real, short: nat, long: nat, signal: nat)
    requires short >= 1 && long >= 1 && signal >= 1
    requires forall k :: 0 <= k < |close| ==> close[k] == c
    ensures forall k :: 0 <= k < |close| ==> MacdLine(close, short, long)[k] == 0.0
    ensures forall k :: 0 <= k < |close| ==> SignalLine(close, short, long, signal)[k] == 0.0
  {
    EmaOfConstant(close, Alpha(short), c);
    EmaOfConstant(close, Alpha(long), c);
    EmaOfConstant(MacdLine(close, short, long), Alpha(signal), 0.0);
  }
}
