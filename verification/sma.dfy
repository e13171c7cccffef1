/** The trailing simple moving average of closing prices, as pandas'
    `rolling(window=p).mean()` produces it: a value per index, missing (NaN)
    until `p` observations are available. */
module MovingAverage {
  import opened Options

  /** Sum of a sequence of prices. */
  function Sum(s: seq<real>): real
  {
    if |s| == 0 then 0.0 else s[0] + Sum(s[1..])
  }

  lemma {:induction false} SumSnoc(s: seq<real>, x: real)
    ensures Sum(s + [x]) == Sum(s) + x
  {
    if |s| == 0 {
      assert s + [x] == [x];
    } else {
      assert (s + [x])[1..] == s[1..] + [x];
      SumSnoc(s[1..], x);
    }
  }

  /** A sum of values that all lie in [lo, hi] lies between |s|*lo and |s|*hi. */
  lemma {:induction false} SumBounds(s: seq<real>, lo: real, hi: real)
    requires forall k :: 0 <= k < |s| ==> lo <= s[k] <= hi
    ensures (|s| as real) * lo <= Sum(s) <= (|s| as real) * hi
  {
    if |s| > 0 {
      SumBounds(s[1..], lo, hi);
      assert s[0] == s[..][0];
    }
  }

  /** First index of the window summed by the rolling sum just before index
      `n` is added: the last `p` of the `n` indices seen so far. */
  function WindowStart(n: nat, p: nat): (start: nat)
    ensures start <= n
    ensures n - start == if n < p then n else p
  {
    if n >= p then n - p else 0
  }

  /** The SMA of period `p` at index `i`: the mean of the closes at indices
      i-p+1 .. i, or None (NaN) when fewer than `p` closes end at `i`. A window
      of zero observations (`p == 0`) has no mean either. */
  function Sma(closes: seq<real>, p: nat, i: nat): (m: Option<real>)
    requires i < |closes|
    ensures m.Some? <==> 1 <= p && p - 1 <= i
  {
    if 1 <= p && p - 1 <= i then Some(Sum(closes[i + 1 - p .. i + 1]) / (p as real)) else None
  }

  /** The SMA at index `i` never looks ahead: appending later closes leaves
      it unchanged. */
  lemma SmaTrailingOnly(closes: seq<real>, later: seq<real>, p: nat, i: nat)
    requires i < |closes|
    ensures Sma(closes + later, p, i) == Sma(closes, p, i)
  {
    if 1 <= p && p - 1 <= i {
      assert (closes + later)[i + 1 - p .. i + 1] == closes[i + 1 - p .. i + 1];
    }
  }

  /** The SMA at index `i` depends on nothing but the `p` closes ending at `i`:
      two histories that agree there have the same SMA there. */
  lemma SmaDependsOnlyOnWindow(xs: seq<real>, ys: seq<real>, p: nat, i: nat)
    requires i < |xs| && i < |ys|
    requires forall k :: 0 <= k <= i && i < k + p ==> xs[k] == ys[k]
    ensures Sma(xs, p, i) == Sma(ys, p, i)
  {
    if 1 <= p && p - 1 <= i {
      assert xs[i + 1 - p .. i + 1] == ys[i + 1 - p .. i + 1];
    }
  }

  /** Dividing a total of `n` values in [lo, hi] by `n` lands in [lo, hi]. */
  lemma MeanBounds(total: real, n: real, lo: real, hi: real)
    requires n > 0.0 && n * lo <= total <= n * hi
    ensures lo <= total / n <= hi
  {
    assert total / n - lo == (total - n * lo) / n;
    assert hi - total / n == (n * hi - total) / n;
  }

  /** The SMA is a mean: it lies within any bounds of the closes it averages. */
  lemma SmaWithinWindowRange(closes: seq<real>, p: nat, i: nat, lo: real, hi: real)
    requires i < |closes| && 1 <= p && p - 1 <= i
    requires forall k :: i + 1 - p <= k <= i ==> lo <= closes[k] <= hi
    ensures lo <= Sma(closes, p, i).value <= hi
  {
    var w := closes[i + 1 - p .. i + 1];
    assert forall k :: 0 <= k < |w| ==> w[k] == closes[i + 1 - p + k];
    SumBounds(w, lo, hi);
    MeanBounds(Sum(w), p as real, lo, hi);
  }

  /** When the `p` closes ending at `i` are all equal to `c`, the SMA is `c`. */
  lemma SmaOfFlatWindow(closes: seq<real>, p: nat, i: nat, c: real)
    requires i < |closes| && 1 <= p && p - 1 <= i
    requires forall k :: i + 1 - p <= k <= i ==> closes[k] == c
    ensures Sma(closes, p, i) == Some(c)
  {
    SmaWithinWindowRange(closes, p, i, c, c);
  }

  /** A one-period SMA is the close itself. */
  lemma SmaOfPeriodOne(closes: seq<real>, i: nat)
    requires i < |closes|
    ensures Sma(closes, 1, i) == Some(closes[i])
  {
    assert closes[i .. i + 1] == [closes[i]];
    assert Sum([closes[i]]) == closes[i] + Sum([]);
  }

  /** Adding close `i` to the running sum and dropping the close that falls
      out of the window moves the summed window on by one index. */
  lemma {:induction false} WindowStep(closes: seq<real>, p: nat, i: nat)
    requires i < |closes|
    ensures Sum(closes[WindowStart(i + 1, p) .. i + 1])
         == Sum(closes[WindowStart(i, p) .. i]) + closes[i] - (if i >= p then closes[i - p] else 0.0)
  {
    var start := WindowStart(i, p);
    assert closes[start .. i + 1] == closes[start .. i] + [closes[i]];
    SumSnoc(closes[start .. i], closes[i]);
    if i >= p {
      assert closes[start .. i + 1][1..] == closes[WindowStart(i + 1, p) .. i + 1];
    }
  }

  /** The whole rolling-mean column, computed the way a rolling window is:
      one running sum, adding the newest close and dropping the one that
      leaves the window. Each entry agrees with `Sma`. */
  method RollingMean(closes: seq<real>, p: nat) returns (sma: seq<Option<real>>)
    ensures |sma| == |closes|
    ensures forall i :: 0 <= i < |closes| ==> sma[i] == Sma(closes, p, i)
  {
    sma := [];
    var total := 0.0;
    var i := 0;
    while i < |closes|
      invariant 0 <= i <= |closes|
      invariant |sma| == i
      invariant forall k :: 0 <= k < i ==> sma[k] == Sma(closes, p, k)
      invariant total == Sum(closes[WindowStart(i, p) .. i])
    {
      WindowStep(closes, p, i);
      total := total + closes[i];
      if i >= p {
        total := total - closes[i - p];
      }
      assert total == Sum(closes[WindowStart(i + 1, p) .. i + 1]);
      var m := if 1 <= p && p - 1 <= i then Some(total / (p as real)) else None;
      assert m == Sma(closes, p, i);
      sma := sma + [m];
      i := i + 1;
    }
  }
}
