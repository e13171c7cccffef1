/** The continuous-respect check: a period is respected when no candle lies
    entirely below that period's SMA. */
module Respect {
  import opened Options
  import opened Candles
  import opened MovingAverage

  /** The periods checked when the caller names none. */
  const DefaultSmaList: seq<nat> := [34, 50, 55, 89, 100, 144, 200, 233]

  /** `x < m` where `m` may be NaN: every comparison with NaN is false. */
  predicate Below(x: real, m: Option<real>)
  {
    m.Some? && x < m.value
  }

  function Max(a: real, b: real): real
  {
    if a < b then b else a
  }

  /** The candle's open, high, low and close are all strictly below `sma`. */
  predicate Violates(c: Candle, sma: Option<real>)
  {
    Below(c.open, sma) && Below(c.high, sma) && Below(c.low, sma) && Below(c.close, sma)
  }

  /** A candle violates the SMA exactly when the SMA is defined and the
      candle's highest price is strictly below it; a NaN SMA is never
      violated. */
  lemma ViolatesIffWholeCandleBelow(c: Candle, sma: Option<real>)
    ensures Violates(c, sma) <==>
              sma.Some? && Max(Max(c.open, c.high), Max(c.low, c.close)) < sma.value
    ensures sma.None? ==> !Violates(c, sma)
  {
  }

  /** No candle of the series lies entirely below the period-`p` SMA at its own
      index. */
  predicate Respected(series: Series, p: nat)
  {
    forall i :: 0 <= i < |series| ==> !ViolatedAt(series, p, i)
  }

  /** The candle at index `i` lies entirely below the period-`p` SMA there. */
  predicate ViolatedAt(series: Series, p: nat, i: nat)
    requires i < |series|
  {
    Violates(series[i], Sma(Closes(series), p, i))
  }

  /** The periods of `periods` that `series` respects, in their original order. */
  function RespectedPeriods(series: Series, periods: seq<nat>): (r: seq<nat>)
    ensures |r| <= |periods|
  {
    if |periods| == 0 then []
    else
      var last := periods[|periods| - 1];
      RespectedPeriods(series, periods[..|periods| - 1]) + (if Respected(series, last) then [last] else [])
  }

  /** Checking one more period appends it exactly when it is respected. */
  lemma RespectedPeriodsSnoc(series: Series, periods: seq<nat>, p: nat)
    ensures RespectedPeriods(series, periods + [p])
         == RespectedPeriods(series, periods) + (if Respected(series, p) then [p] else [])
  {
    assert (periods + [p])[..|periods|] == periods;
  }

  /** A period is in the result exactly when it is listed and respected. */
  lemma {:induction false} RespectedPeriodsMembership(series: Series, periods: seq<nat>, p: nat)
    ensures p in RespectedPeriods(series, periods) <==> p in periods && Respected(series, p)
  {
    if |periods| > 0 {
      var init := periods[..|periods| - 1];
      var last := periods[|periods| - 1];
      assert periods == init + [last];
      RespectedPeriodsMembership(series, init, p);
      RespectedPeriodsSnoc(series, init, last);
    }
  }

  /** The inner scan: walk the candles in order and stop at the first one that
      lies entirely below the SMA. */
  method RespectsContinuously(series: Series, p: nat) returns (respected: bool)
    ensures respected <==> Respected(series, p)
  {
    var sma := RollingMean(Closes(series), p);
    respected := true;
    var i := 0;
    while i < |series|
      invariant 0 <= i <= |series|
      invariant respected
      invariant forall k :: 0 <= k < i ==> !ViolatedAt(series, p, k)
    {
      if Violates(series[i], sma[i]) {
        assert ViolatedAt(series, p, i);
        respected := false;
        break;
      }
      i := i + 1;
    }
  }

  /** The outer loop: check each period in turn and keep those respected. */
  method CheckContinuousRespectSma(series: Series, smaList: seq<nat>) returns (respectedSmas: seq<nat>)
    ensures respectedSmas == RespectedPeriods(series, smaList)
    ensures forall p :: p in respectedSmas <==> p in smaList && Respected(series, p)
  {
    respectedSmas := [];
    var j := 0;
    while j < |smaList|
      invariant 0 <= j <= |smaList|
      invariant respectedSmas == RespectedPeriods(series, smaList[..j])
    {
      var period := smaList[j];
      var ok := RespectsContinuously(series, period);
      assert smaList[..j + 1] == smaList[..j] + [period];
      RespectedPeriodsSnoc(series, smaList[..j], period);
      if ok {
        respectedSmas := respectedSmas + [period];
      }
      j := j + 1;
    }
    assert smaList[..j] == smaList;
    forall p
      ensures p in respectedSmas <==> p in smaList && Respected(series, p)
    {
      RespectedPeriodsMembership(series, smaList, p);
    }
  }

  /** The check with the default period list. */
  method CheckDefaultSmas(series: Series) returns (respectedSmas: seq<nat>)
    ensures respectedSmas == RespectedPeriods(series, DefaultSmaList)
    ensures forall p :: p in respectedSmas <==> p in DefaultSmaList && Respected(series, p)
  {
    respectedSmas := CheckContinuousRespectSma(series, DefaultSmaList);
  }
}
