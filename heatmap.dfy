/** The colour scale shared by the matchup page and the stats table: a
    value's position between the smallest and the largest value of its
    column, as a whole percentage from 0 to 40, or no tint at all when the
    smallest and the largest value are the same. */
module Heatmap {
  import opened Text

  /** getColorIntensity of the matchup page and applyCellHeatmap of the
      stats table: the value's position between the smallest and the largest
      value, scaled to 0..40 and rounded down. When the smallest and the
      largest value are equal the division is 0/0 (or x/0) in JavaScript: the
      percentage is NaN or Infinity, which CSS rejects, so the cell keeps no
      tint; that case is `None`. */
  function ColorIntensity(value: real, minValue: real, maxValue: real): (r: Option<int>)
    ensures r.None? <==> minValue == maxValue
    ensures minValue <= value <= maxValue && r.Some? ==> 0 <= r.value <= 40
    ensures minValue <= value <= maxValue && r.Some? ==> (r.value == 40 <==> value == maxValue)
    ensures value == minValue && r.Some? ==> r.value == 0
  {
    if minValue == maxValue then None
    else
      var normalized := (value - minValue) / (maxValue - minValue);
      if minValue < maxValue then IntensityBounds(value, minValue, maxValue); Some((normalized * 40.0).Floor)
      else Some((normalized * 40.0).Floor)
  }

  lemma IntensityBounds(value: real, minValue: real, maxValue: real)
    requires minValue < maxValue
    ensures var n := (value - minValue) / (maxValue - minValue);
      && (minValue <= value ==> n >= 0.0)
      && (value <= maxValue ==> n <= 1.0)
      && (value < maxValue ==> n < 1.0)
      && (value == maxValue ==> n == 1.0)
      && (value == minValue ==> n == 0.0)
  {
    var w := maxValue - minValue;
    var n := (value - minValue) / w;
    assert n * w == value - minValue;
  }

  /** `Math.min(...values)` and `Math.max(...values)` on a non-empty list. */
  function MinOf(values: seq<real>): (r: real)
    requires |values| > 0
    ensures r in values && forall k :: 0 <= k < |values| ==> r <= values[k]
  {
    if |values| == 1 then values[0]
    else
      var m := MinOf(values[1..]);
      assert forall k :: 1 <= k < |values| ==> values[k] == values[1..][k - 1];
      if values[0] <= m then values[0] else m
  }

  function MaxOf(values: seq<real>): (r: real)
    requires |values| > 0
    ensures r in values && forall k :: 0 <= k < |values| ==> r >= values[k]
  {
    if |values| == 1 then values[0]
    else
      var m := MaxOf(values[1..]);
      assert forall k :: 1 <= k < |values| ==> values[k] == values[1..][k - 1];
      if values[0] >= m then values[0] else m
  }
}
