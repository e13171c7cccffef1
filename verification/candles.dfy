/** One period's price summary and the series the evaluator scans. */
module Candles {

  /** One row of the downloaded price table: the Open, High, Low and Close
      columns. Nothing relates the four fields to each other; the evaluator
      never relies on `low <= open <= high`. */
  datatype Candle = Candle(open: real, high: real, low: real, close: real)

  /** A chronologically ordered price history; the index is the position. */
  type Series = seq<Candle>

  /** The `Close` column of a series. */
  function Closes(series: Series): (cs: seq<real>)
    ensures |cs| == |series|
    ensures forall i :: 0 <= i < |series| ==> cs[i] == series[i].close
  {
    seq(|series|, i requires 0 <= i < |series| => series[i].close)
  }

  /** Taking the Close column commutes with appending candles. */
  lemma ClosesAppend(a: Series, b: Series)
    ensures Closes(a + b) == Closes(a) + Closes(b)
  {
  }
}
