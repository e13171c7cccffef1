/** What the continuous-respect check promises, stated over the functional
    model in `Respect` (which both loops are proved to compute). */
module RespectProperties {
  import opened Options
  import opened Candles
  import opened MovingAverage
  import opened Respect

  // ---------------------------------------------------------------------
  // Undefined SMA and strict comparisons

  /** Before index p-1 the SMA is NaN, and a candle compared with NaN is never
      below it, whatever its prices. */
  lemma NoViolationWhileSmaUndefined(series: Series, p: nat, i: nat)
    requires i < |series| && (p == 0 || i < p - 1)
    ensures Sma(Closes(series), p, i).None?
    ensures !Violates(series[i], Sma(Closes(series), p, i))
  {
  }

  /** The comparisons are strict: a candle with any one price at or above the
      SMA does not violate it. */
  lemma AtOrAboveIsNoViolation(c: Candle, v: real)
    requires c.open >= v || c.high >= v || c.low >= v || c.close >= v
    ensures !Violates(c, Some(v))
  {
  }

  /** A candle sitting exactly on the SMA is not below it. */
  lemma CandleOnSmaIsNoViolation(v: real)
    ensures !Violates(Candle(v, v, v, v), Some(v))
  {
  }

  // ---------------------------------------------------------------------
  // Verdict for one period

  /** A series with no index at which the SMA is defined (empty, shorter than
      the period, or a zero-length window) respects the period vacuously. */
  lemma ShortSeriesIsRespected(series: Series, p: nat)
    requires p == 0 || |series| < p
    ensures Respected(series, p)
  {
  }

  /** Scanning from index 0, as the loop does, gives the same verdict as
      scanning only the indices where the SMA is defined. */
  lemma RespectedIffNoViolationAtDefinedIndex(series: Series, p: nat)
    ensures Respected(series, p) <==>
              forall i :: 1 <= p && p - 1 <= i < |series| ==> !Violates(series[i], Sma(Closes(series), p, i))
  {
    if Respected(series, p) {
      forall i | 1 <= p && p - 1 <= i < |series|
        ensures !Violates(series[i], Sma(Closes(series), p, i))
      {
        assert !ViolatedAt(series, p, i);
      }
    }
    if forall i :: 1 <= p && p - 1 <= i < |series| ==> !Violates(series[i], Sma(Closes(series), p, i)) {
      forall i | 0 <= i < |series|
        ensures !ViolatedAt(series, p, i)
      {
        if !(1 <= p && p - 1 <= i) {
          NoViolationWhileSmaUndefined(series, p, i);
        }
      }
    }
  }

  /** One candle entirely below its SMA rejects the period, and the period is
      then missing from the result whatever the other periods are. */
  lemma ViolationRejects(series: Series, p: nat, i: nat, periods: seq<nat>)
    requires i < |series| && Violates(series[i], Sma(Closes(series), p, i))
    ensures !Respected(series, p)
    ensures p !in RespectedPeriods(series, periods)
  {
    assert ViolatedAt(series, p, i);
    RespectedPeriodsMembership(series, periods, p);
  }

  /** A series that closes at or above the SMA wherever the SMA is defined
      respects the period. */
  lemma ClosingAboveSmaIsRespected(series: Series, p: nat)
    requires forall i :: 0 <= i < |series| && Sma(Closes(series), p, i).Some? ==>
               series[i].close >= Sma(Closes(series), p, i).value
    ensures Respected(series, p)
  {
    forall i | 0 <= i < |series|
      ensures !ViolatedAt(series, p, i)
    {
      var m := Sma(Closes(series), p, i);
      if m.Some? {
        AtOrAboveIsNoViolation(series[i], m.value);
      }
    }
  }

  /** Appending candles never turns a rejected period into a respected one:
      the SMA at the existing indices is unchanged, so the old violation is
      still there. */
  lemma {:induction false} ExtensionPreservesRejection(series: Series, more: Series, p: nat)
    requires !Respected(series, p)
    ensures !Respected(series + more, p)
  {
    var i :| 0 <= i < |series| && ViolatedAt(series, p, i);
    ClosesAppend(series, more);
    SmaTrailingOnly(Closes(series), Closes(more), p, i);
    assert (series + more)[i] == series[i];
    assert ViolatedAt(series + more, p, i);
  }

  // ---------------------------------------------------------------------
  // The list of respected periods

  /** `a` is `b` with some elements removed, the rest kept in order. */
  ghost predicate SubsequenceOf(a: seq<nat>, b: seq<nat>)
    decreases |b|
  {
    if |b| == 0 then |a| == 0
    else
      SubsequenceOf(a, b[..|b| - 1])
      || (|a| > 0 && a[|a| - 1] == b[|b| - 1] && SubsequenceOf(a[..|a| - 1], b[..|b| - 1]))
  }

  lemma SubsequenceOfSnoc(a: seq<nat>, b: seq<nat>, x: nat)
    requires SubsequenceOf(a, b)
    ensures SubsequenceOf(a, b + [x])
    ensures SubsequenceOf(a + [x], b + [x])
  {
    assert (b + [x])[..|b|] == b;
    assert (a + [x])[..|a|] == a;
  }

  /** The result keeps the periods in the order they were listed. */
  lemma {:induction false} ResultIsSubsequenceOfList(series: Series, periods: seq<nat>)
    ensures SubsequenceOf(RespectedPeriods(series, periods), periods)
  {
    if |periods| > 0 {
      var init := periods[..|periods| - 1];
      var last := periods[|periods| - 1];
      assert periods == init + [last];
      var r := RespectedPeriods(series, init);
      ResultIsSubsequenceOfList(series, init);
      RespectedPeriodsSnoc(series, init, last);
      SubsequenceOfSnoc(r, init, last);
      if Respected(series, last) {
        assert RespectedPeriods(series, periods) == r + [last];
      } else {
        assert RespectedPeriods(series, periods) == r;
      }
    }
  }

  /** Whether a period is kept depends only on that period and the series:
      checking two lists one after the other gives the concatenated result. */
  lemma {:induction false} RespectedPeriodsAppend(series: Series, a: seq<nat>, b: seq<nat>)
    ensures RespectedPeriods(series, a + b) == RespectedPeriods(series, a) + RespectedPeriods(series, b)
    decreases |b|
  {
    if |b| == 0 {
      assert a + b == a;
    } else {
      var init := b[..|b| - 1];
      var last := b[|b| - 1];
      assert b == init + [last];
      assert a + b == (a + init) + [last];
      RespectedPeriodsAppend(series, a, init);
      RespectedPeriodsSnoc(series, a + init, last);
      RespectedPeriodsSnoc(series, init, last);
      var ra := RespectedPeriods(series, a);
      var ri := RespectedPeriods(series, init);
      if Respected(series, last) {
        assert RespectedPeriods(series, a + b) == (ra + ri) + [last];
        assert RespectedPeriods(series, b) == ri + [last];
      } else {
        assert RespectedPeriods(series, a + b) == ra + ri;
        assert RespectedPeriods(series, b) == ri;
      }
    }
  }

  /** A single period is kept exactly when it is respected. */
  lemma RespectedPeriodsSingleton(series: Series, p: nat)
    ensures RespectedPeriods(series, [p]) == if Respected(series, p) then [p] else []
  {
    RespectedPeriodsSnoc(series, [], p);
  }

  /** A list of periods that are all respected comes back unchanged. */
  lemma {:induction false} AllRespectedKeepsList(series: Series, periods: seq<nat>)
    requires forall k :: 0 <= k < |periods| ==> Respected(series, periods[k])
    ensures RespectedPeriods(series, periods) == periods
  {
    if |periods| > 0 {
      var init := periods[..|periods| - 1];
      var last := periods[|periods| - 1];
      assert periods == init + [last];
      AllRespectedKeepsList(series, init);
      RespectedPeriodsSnoc(series, init, last);
    }
  }

  /** Checking the result again keeps all of it. */
  lemma RespectedPeriodsIdempotent(series: Series, periods: seq<nat>)
    ensures RespectedPeriods(series, RespectedPeriods(series, periods)) == RespectedPeriods(series, periods)
  {
    var r := RespectedPeriods(series, periods);
    forall k | 0 <= k < |r|
      ensures Respected(series, r[k])
    {
      RespectedPeriodsMembership(series, periods, r[k]);
    }
    AllRespectedKeepsList(series, r);
  }

  /** An empty history respects every period. */
  lemma EmptySeriesKeepsList(periods: seq<nat>)
    ensures RespectedPeriods([], periods) == periods
  {
    forall k | 0 <= k < |periods|
      ensures Respected([], periods[k])
    {
    }
    AllRespectedKeepsList([], periods);
  }

  /** With fewer candles than the shortest default period (34), every default
      period is reported respected. */
  lemma ShortHistoryKeepsDefaults(series: Series)
    requires |series| < 34
    ensures RespectedPeriods(series, DefaultSmaList) == DefaultSmaList
  {
    forall k | 0 <= k < |DefaultSmaList|
      ensures Respected(series, DefaultSmaList[k])
    {
      ShortSeriesIsRespected(series, DefaultSmaList[k]);
    }
    AllRespectedKeepsList(series, DefaultSmaList);
  }

  /** Appending candles can only remove periods from the result, never add or
      reorder them. */
  lemma {:induction false} ExtensionShrinksResult(series: Series, more: Series, periods: seq<nat>)
    ensures SubsequenceOf(RespectedPeriods(series + more, periods), RespectedPeriods(series, periods))
  {
    if |periods| > 0 {
      var init := periods[..|periods| - 1];
      var last := periods[|periods| - 1];
      assert periods == init + [last];
      ExtensionShrinksResult(series, more, init);
      RespectedPeriodsSnoc(series, init, last);
      RespectedPeriodsSnoc(series + more, init, last);
      var a := RespectedPeriods(series + more, init);
      var b := RespectedPeriods(series, init);
      SubsequenceOfSnoc(a, b, last);
      if Respected(series + more, last) {
        if !Respected(series, last) {
          ExtensionPreservesRejection(series, more, last);
          assert false;
        }
        assert RespectedPeriods(series + more, periods) == a + [last];
        assert RespectedPeriods(series, periods) == b + [last];
      } else if Respected(series, last) {
        assert RespectedPeriods(series + more, periods) == a;
        assert RespectedPeriods(series, periods) == b + [last];
      } else {
        assert RespectedPeriods(series + more, periods) == a;
        assert RespectedPeriods(series, periods) == b;
      }
    }
  }

  // ---------------------------------------------------------------------
  // Worked examples

  lemma SumOfThree(a: real, b: real, c: real)
    ensures Sum([a, b, c]) == a + b + c
  {
    assert [c][1..] == [];
    assert Sum([c]) == c;
    assert [b, c][1..] == [c];
    assert Sum([b, c]) == b + c;
    assert [a, b, c][1..] == [b, c];
  }

  /** Three candles, period 3: the SMA at index 2 is 12 and the last candle
      opens at 12, so it is not below; the period is respected. */
  lemma RespectedExample()
    ensures Sma(Closes([Candle(10.0, 12.0, 9.0, 11.0), Candle(11.0, 13.0, 10.0, 12.0),
                        Candle(12.0, 14.0, 11.0, 13.0)]), 3, 2) == Some(12.0)
    ensures Respected([Candle(10.0, 12.0, 9.0, 11.0), Candle(11.0, 13.0, 10.0, 12.0),
                       Candle(12.0, 14.0, 11.0, 13.0)], 3)
  {
    var s := [Candle(10.0, 12.0, 9.0, 11.0), Candle(11.0, 13.0, 10.0, 12.0), Candle(12.0, 14.0, 11.0, 13.0)];
    var cs := Closes(s);
    assert cs == [11.0, 12.0, 13.0];
    assert cs[0..3] == cs;
    SumOfThree(11.0, 12.0, 13.0);
    assert Sma(cs, 3, 2) == Some(12.0);
    assert !Violates(s[2], Sma(cs, 3, 2));
  }

  /** A series whose last candle collapses to 5 after closes of 11 and 12. */
  function CollapseSeries(): Series
  {
    [Candle(10.0, 12.0, 9.0, 11.0), Candle(11.0, 13.0, 10.0, 12.0), Candle(5.0, 6.0, 4.0, 5.0)]
  }

  /** The collapsing candle falls below the period-2 SMA (8.5) and the
      period-3 SMA (28/3), so both periods are rejected. */
  lemma CollapseRejectsTwoAndThree()
    ensures !Respected(CollapseSeries(), 2)
    ensures !Respected(CollapseSeries(), 3)
  {
    var s := CollapseSeries();
    var cs := Closes(s);
    assert cs == [11.0, 12.0, 5.0];
    assert cs[1..3] == [12.0, 5.0];
    assert [12.0, 5.0][1..] == [5.0];
    assert [5.0][1..] == [];
    assert Sma(cs, 2, 2) == Some(8.5);
    ViolationRejects(s, 2, 2, []);
    assert cs[0..3] == cs;
    SumOfThree(11.0, 12.0, 5.0);
    assert Sma(cs, 3, 2) == Some(28.0 / 3.0);
    ViolationRejects(s, 3, 2, []);
  }

  /** A candle is never below a one-period SMA, which is its own close. */
  lemma PeriodOneIsRespected(series: Series)
    ensures Respected(series, 1)
  {
    forall i | 0 <= i < |series|
      ensures !ViolatedAt(series, 1, i)
    {
      SmaOfPeriodOne(Closes(series), i);
      AtOrAboveIsNoViolation(series[i], series[i].close);
    }
  }

  /** Four periods of which the first and last are respected: the result is
      those two. */
  lemma KeepsFirstAndLast(series: Series, a: nat, b: nat, c: nat, d: nat)
    requires Respected(series, a) && !Respected(series, b) && !Respected(series, c) && Respected(series, d)
    ensures RespectedPeriods(series, [a, b, c, d]) == [a, d]
  {
    var none: seq<nat> := [];
    var s1 := none + [a];
    var s2 := s1 + [b];
    var s3 := s2 + [c];
    var s4 := s3 + [d];
    RespectedPeriodsSnoc(series, none, a);
    assert RespectedPeriods(series, s1) == [a];
    RespectedPeriodsSnoc(series, s1, b);
    assert RespectedPeriods(series, s2) == [a];
    RespectedPeriodsSnoc(series, s2, c);
    assert RespectedPeriods(series, s3) == [a];
    RespectedPeriodsSnoc(series, s3, d);
    assert s4 == [a, b, c, d];
  }

  /** Checking periods 1 to 4 on the collapsing series keeps 1 (its own close)
      and 4 (longer than the series), and drops 2 and 3. */
  lemma CollapseExample()
    ensures RespectedPeriods(CollapseSeries(), [1, 2, 3, 4]) == [1, 4]
  {
    var s := CollapseSeries();
    assert |s| < 4;
    ShortSeriesIsRespected(s, 4);
    PeriodOneIsRespected(s);
    CollapseRejectsTwoAndThree();
    KeepsFirstAndLast(s, 1, 2, 3, 4);
  }
}
