/** The legend strip of the heat map widget: `count` evenly spaced samples
    between the reported minimum and maximum, each with its number, its colour
    on the blue-to-red scale and its x position on the legend canvas. */
module Legend {
  import opened HeatMapTypes

  /** Pixels left free at each end of the legend strip. */
  const Margin: real := 40.0

  /** `parseInt(config.legendCount) || 2`: the parsed count, or 2 when it is
      NaN (`None`) or 0. */
  function LegendCount(parsed: Option<int>): (count: int)
    ensures count != 0
    ensures parsed.None? || parsed == Some(0) ==> count == 2
    ensures parsed.Some? && parsed.value != 0 ==> count == parsed.value
  {
    if parsed.Some? && parsed.value != 0 then parsed.value else 2
  }

  /** Position of sample `j` on the scale, from 0 at the first sample to 1 at
      the last. */
  function Fraction(j: int, count: int): real
    requires count >= 2
  {
    j as real / (count - 1) as real
  }

  /** The number shown at `fraction` along the range from `lo` to `hi`. */
  function Interpolate(lo: real, hi: real, fraction: real): real
  {
    (hi - lo) * fraction + lo
  }

  /** The colour at `fraction` along the scale from blue (0, 0, 255) to red
      (255, 0, 0), each channel interpolated on its own. */
  function Colour(fraction: real): Rgb
  {
    Rgb((255.0 - 0.0) * fraction + 0.0, (0.0 - 0.0) * fraction + 0.0, (0.0 - 255.0) * fraction + 255.0)
  }

  /** Backing-store pixels per displayed pixel of the legend canvas, 1 when
      the canvas is not displayed. */
  function Ratio(canvas: LegendCanvas): (ratio: real)
    ensures ratio >= 0.0
    ensures canvas.clientWidth > 0 ==> ratio * canvas.clientWidth as real == canvas.width as real
    ensures canvas.clientWidth == 0 ==> ratio == 1.0
  {
    if canvas.clientWidth > 0 then canvas.width as real / canvas.clientWidth as real else 1.0
  }

  /** Backing-store x of the sample at `fraction`: the displayed strip without
      its margins is scaled by `fraction`, shifted by the left margin and
      converted by `Ratio`. */
  function LegendX(canvas: LegendCanvas, fraction: real): real
  {
    ((canvas.clientWidth as real - 2.0 * Margin) * fraction + Margin) * Ratio(canvas)
  }

  function Sample(lo: real, hi: real, canvas: LegendCanvas, fraction: real): LegendEntry
  {
    LegendEntry(fraction, Interpolate(lo, hi, fraction), Colour(fraction), LegendX(canvas, fraction))
  }

  /** `entries` is the legend for the range `lo`..`hi` with `count` samples:
      none when `count` is negative, otherwise sample `j` at fraction
      `j / (count - 1)`. */
  predicate LegendBuilt(lo: real, hi: real, count: int, canvas: LegendCanvas, entries: seq<LegendEntry>)
    requires count != 1
  {
    && |entries| == (if count > 0 then count else 0)
    && forall j :: 0 <= j < |entries| ==> entries[j] == Sample(lo, hi, canvas, Fraction(j, count))
  }

  /** The legend loop: one entry per sample, in order of increasing fraction. */
  method BuildLegend(minValue: real, maxValue: real, legendCount: Option<int>, canvas: LegendCanvas)
    returns (entries: seq<LegendEntry>)
    requires LegendCount(legendCount) != 1
    ensures LegendBuilt(minValue, maxValue, LegendCount(legendCount), canvas, entries)
  {
    var ratioWidth := 1.0;
    if canvas.clientWidth > 0 {
      ratioWidth := canvas.width as real / canvas.clientWidth as real;
    }
    assert ratioWidth == Ratio(canvas);
    var count := LegendCount(legendCount);
    entries := [];
    var j := 0;
    while j < count
      invariant 0 <= j <= (if count > 0 then count else 0) && |entries| == j
      invariant forall i :: 0 <= i < j ==> entries[i] == Sample(minValue, maxValue, canvas, Fraction(i, count))
    {
      var fraction := j as real / (count - 1) as real;
      var value := (maxValue - minValue) * fraction + minValue;
      var red := (255.0 - 0.0) * fraction + 0.0;
      var green := (0.0 - 0.0) * fraction + 0.0;
      var blue := (0.0 - 255.0) * fraction + 255.0;
      var x := ((canvas.clientWidth as real - 2.0 * Margin) * fraction + Margin) * ratioWidth;
      assert fraction == Fraction(j, count);
      assert value == Interpolate(minValue, maxValue, fraction);
      assert Rgb(red, green, blue) == Colour(fraction);
      assert x == LegendX(canvas, fraction);
      entries := entries + [LegendEntry(fraction, value, Rgb(red, green, blue), x)];
      j := j + 1;
    }
  }

  // ---------------------------------------------------------------------------
  // Arithmetic helpers.

  lemma NonNegativeProduct(a: real, b: real)
    requires a >= 0.0 && b >= 0.0
    ensures a * b >= 0.0
  {
  }

  lemma PositiveProduct(a: real, b: real)
    requires a > 0.0 && b > 0.0
    ensures a * b > 0.0
  {
  }

  /** Multiplying by a positive factor keeps a strict order. */
  lemma ScaleOrder(a: real, b: real, c: real)
    requires a < b && c > 0.0
    ensures a * c < b * c && c * a < c * b
  {
  }

  /** An increasing affine map followed by a positive scaling keeps a strict
      order. */
  lemma AffineOrder(w: real, m: real, r: real, f: real, g: real)
    requires f < g && w > 0.0 && r > 0.0
    ensures (w * f + m) * r < (w * g + m) * r
  {
  }

  /** A number whose product with a positive factor is positive (non-negative)
      is itself positive (non-negative). */
  lemma PositiveFactor(a: real, d: real)
    requires d > 0.0
    ensures a * d > 0.0 ==> a > 0.0
    ensures a * d >= 0.0 ==> a >= 0.0
  {
  }

  // ---------------------------------------------------------------------------
  // Properties of the scale.

  /** The fractions run from 0 at the first sample to 1 at the last, strictly
      increasing in between. */
  lemma FractionOrder(count: int, i: int, j: int)
    requires count >= 2 && 0 <= i < j < count
    ensures 0.0 <= Fraction(i, count) < Fraction(j, count) <= 1.0
    ensures Fraction(0, count) == 0.0 && Fraction(count - 1, count) == 1.0
  {
    var d := (count - 1) as real;
    assert Fraction(i, count) * d == i as real;
    assert Fraction(j, count) * d == j as real;
    PositiveFactor(Fraction(j, count) - Fraction(i, count), d);
    PositiveFactor(1.0 - Fraction(j, count), d);
    PositiveFactor(Fraction(i, count) + 1.0, d);
  }

  /** The interpolated number is `lo` at fraction 0 and `hi` at fraction 1,
      and never decreases along the scale when `lo <= hi`. */
  lemma InterpolateOrder(lo: real, hi: real, f: real, g: real)
    requires f <= g
    ensures Interpolate(lo, hi, 0.0) == lo && Interpolate(lo, hi, 1.0) == hi
    ensures lo <= hi ==> Interpolate(lo, hi, f) <= Interpolate(lo, hi, g)
    ensures 0.0 <= f <= 1.0 && lo <= hi ==> lo <= Interpolate(lo, hi, f) <= hi
  {
    if lo <= hi {
      assert Interpolate(lo, hi, g) - Interpolate(lo, hi, f) == (hi - lo) * (g - f);
      NonNegativeProduct(hi - lo, g - f);
      if 0.0 <= f <= 1.0 {
        assert hi - Interpolate(lo, hi, f) == (hi - lo) * (1.0 - f);
        NonNegativeProduct(hi - lo, 1.0 - f);
        NonNegativeProduct(hi - lo, f);
      }
    }
  }

  /** Every colour of the scale has no green and splits 255 between red and
      blue; fraction 0 is pure blue and fraction 1 pure red. */
  lemma ColourScale(f: real)
    ensures Colour(f).green == 0.0 && Colour(f).red + Colour(f).blue == 255.0
    ensures 0.0 <= f <= 1.0 ==> 0.0 <= Colour(f).red <= 255.0 && 0.0 <= Colour(f).blue <= 255.0
    ensures Colour(0.0) == Rgb(0.0, 0.0, 255.0) && Colour(1.0) == Rgb(255.0, 0.0, 0.0)
  {
  }

  /** A non-empty backing store gives a positive scale factor. */
  lemma RatioPositive(canvas: LegendCanvas)
    requires canvas.width > 0
    ensures Ratio(canvas) > 0.0
  {
    if canvas.clientWidth > 0 {
      PositiveFactor(Ratio(canvas), canvas.clientWidth as real);
    }
  }

  /** On a displayed strip wider than both margins with a non-empty backing
      store, x strictly increases along the scale. */
  lemma LegendXOrder(canvas: LegendCanvas, f: real, g: real)
    requires f < g
    requires canvas.clientWidth > 80 && canvas.width > 0
    ensures LegendX(canvas, f) < LegendX(canvas, g)
  {
    var w := canvas.clientWidth as real - 2.0 * Margin;
    assert w > 0.0;
    RatioPositive(canvas);
    AffineOrder(w, Margin, Ratio(canvas), f, g);
    assert LegendX(canvas, f) == (w * f + Margin) * Ratio(canvas);
    assert LegendX(canvas, g) == (w * g + Margin) * Ratio(canvas);
  }

  // ---------------------------------------------------------------------------
  // What a built legend satisfies.

  /** With at least two samples, the first entry shows the minimum in pure blue
      one margin in, and the last shows the maximum in pure red one margin
      before the end. */
  lemma LegendEnds(lo: real, hi: real, count: int, canvas: LegendCanvas, entries: seq<LegendEntry>)
    requires count >= 2 && LegendBuilt(lo, hi, count, canvas, entries)
    ensures entries[0] == LegendEntry(0.0, lo, Rgb(0.0, 0.0, 255.0), Margin * Ratio(canvas))
    ensures entries[count - 1] ==
              LegendEntry(1.0, hi, Rgb(255.0, 0.0, 0.0), (canvas.clientWidth as real - Margin) * Ratio(canvas))
  {
    FractionOrder(count, 0, count - 1);
    InterpolateOrder(lo, hi, 0.0, 1.0);
    ColourScale(0.0);
  }

  /** Along a built legend the fractions strictly increase, the numbers never
      decrease when `lo <= hi`, and x strictly increases on a strip wider than
      both margins with a non-empty backing store. */
  lemma LegendOrdered(lo: real, hi: real, count: int, canvas: LegendCanvas, entries: seq<LegendEntry>)
    requires count != 1 && LegendBuilt(lo, hi, count, canvas, entries)
    ensures forall i, j :: 0 <= i < j < |entries| ==>
              && entries[i].fraction < entries[j].fraction
              && (lo <= hi ==> entries[i].value <= entries[j].value)
              && (canvas.clientWidth > 80 && canvas.width > 0 ==> entries[i].x < entries[j].x)
  {
    forall i, j | 0 <= i < j < |entries|
      ensures entries[i].fraction < entries[j].fraction
      ensures lo <= hi ==> entries[i].value <= entries[j].value
      ensures canvas.clientWidth > 80 && canvas.width > 0 ==> entries[i].x < entries[j].x
    {
      FractionOrder(count, i, j);
      InterpolateOrder(lo, hi, Fraction(i, count), Fraction(j, count));
      if canvas.clientWidth > 80 && canvas.width > 0 {
        LegendXOrder(canvas, Fraction(i, count), Fraction(j, count));
      }
    }
  }

  /** Every entry of a built legend lies on the range and on the blue-to-red
      scale: no green, red and blue adding up to 255, each within 0..255. */
  lemma LegendColours(lo: real, hi: real, count: int, canvas: LegendCanvas, entries: seq<LegendEntry>)
    requires count != 1 && LegendBuilt(lo, hi, count, canvas, entries)
    ensures forall j :: 0 <= j < |entries| ==>
              && entries[j].colour.green == 0.0
              && entries[j].colour.red + entries[j].colour.blue == 255.0
              && 0.0 <= entries[j].colour.red <= 255.0 && 0.0 <= entries[j].colour.blue <= 255.0
              && (lo <= hi ==> lo <= entries[j].value <= hi)
  {
    forall j | 0 <= j < |entries|
      ensures entries[j].colour.green == 0.0
      ensures entries[j].colour.red + entries[j].colour.blue == 255.0
      ensures 0.0 <= entries[j].colour.red <= 255.0 && 0.0 <= entries[j].colour.blue <= 255.0
      ensures lo <= hi ==> lo <= entries[j].value <= hi
    {
      if j == 0 {
        assert Fraction(j, count) == 0.0;
      } else {
        FractionOrder(count, 0, j);
      }
      ColourScale(Fraction(j, count));
      InterpolateOrder(lo, hi, Fraction(j, count), Fraction(j, count));
    }
  }
}
