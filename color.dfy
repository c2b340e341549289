/**
 * The colour classifier of the scanner: one pixel (three 8-bit channels) is
 * converted to hue, saturation and lightness, and the result is mapped to one
 * of four colour labels, or to no label at all.
 *
 * Arithmetic is exact (`real`); the page's JavaScript works on IEEE-754
 * doubles, so a pixel whose hue, saturation or lightness lands exactly on a
 * threshold of `detectColor` may be labelled differently there.
 */
module ColorDetection {
  import opened Wrappers

  /** A channel as it comes out of the canvas pixel data: an integer in [0, 255]. */
  type Channel = x: int | 0 <= x <= 255

  datatype Label = Red | Yellow | Green | Blue

  /** Hue in degrees, saturation and lightness in percent. */
  datatype Hsl = Hsl(h: real, s: real, l: real)

  /** A colour with real channels on the 0..255 scale. */
  datatype Rgb = Rgb(r: real, g: real, b: real)

  function Max3(a: real, b: real, c: real): (m: real)
    ensures m >= a && m >= b && m >= c
    ensures m == a || m == b || m == c
  {
    if a >= b && a >= c then a else if b >= c then b else c
  }

  function Min3(a: real, b: real, c: real): (m: real)
    ensures m <= a && m <= b && m <= c
    ensures m == a || m == b || m == c
  {
    if a <= b && a <= c then a else if b <= c then b else c
  }

  /** A quotient whose numerator lies in (0, d] lies in (0, 1]. */
  lemma UnitQuotient(x: real, d: real)
    requires 0.0 < x <= d
    ensures 0.0 < x / d <= 1.0
  {
  }

  /** A quotient whose numerator lies in [-d, d] lies in [-1, 1], with the numerator's sign. */
  lemma SignedQuotient(x: real, d: real)
    requires d > 0.0 && -d <= x <= d
    ensures -1.0 <= x / d <= 1.0
    ensures x < 0.0 ==> x / d < 0.0
    ensures x >= 0.0 ==> x / d >= 0.0
    ensures x / d == 1.0 ==> x == d
    ensures x / d == -1.0 ==> x == -d
  {
  }

  /**
   * The hue sextant of `rgbToHsl`: the ratio computed by the `switch` on the
   * largest channel, before the division by 6. The first case whose channel
   * equals the maximum wins, as in the JavaScript `switch`.
   */
  function Sextant(rn: real, gn: real, bn: real): (x: real)
    requires !(rn == gn == bn)
    ensures 0.0 <= x < 6.0
  {
    var mx, mn := Max3(rn, gn, bn), Min3(rn, gn, bn);
    var d := mx - mn;
    if mx == rn then
      SignedQuotient(gn - bn, d);
      (gn - bn) / d + (if gn < bn then 6.0 else 0.0)
    else if mx == gn then
      SignedQuotient(bn - rn, d);
      (bn - rn) / d + 2.0
    else
      SignedQuotient(rn - gn, d);
      (rn - gn) / d + 4.0
  }

  /** A channel scaled to [0, 1], as the first line of `rgbToHsl` does. */
  predicate Unit(x: real)
  {
    0.0 <= x <= 1.0
  }

  /**
   * The body of `rgbToHsl` after the channels are scaled to [0, 1]: hue in
   * [0, 360), saturation and lightness in [0, 100], saturation zero exactly
   * when the three channels are equal, and hue 0 then.
   */
  function UnitToHsl(rn: real, gn: real, bn: real): (c: Hsl)
    requires Unit(rn) && Unit(gn) && Unit(bn)
    ensures 0.0 <= c.h < 360.0
    ensures 0.0 <= c.s <= 100.0
    ensures 0.0 <= c.l <= 100.0
    ensures c.s == 0.0 <==> rn == gn == bn
    ensures rn == gn == bn ==> c.h == 0.0
  {
    var mx, mn := Max3(rn, gn, bn), Min3(rn, gn, bn);
    var l := (mx + mn) / 2.0;
    if mx == mn then
      Hsl(0.0, 0.0, l * 100.0)
    else
      var d := mx - mn;
      var s := if l > 0.5 then (UnitQuotient(d, 2.0 - mx - mn); d / (2.0 - mx - mn))
               else (UnitQuotient(d, mx + mn); d / (mx + mn));
      Hsl(Sextant(rn, gn, bn) / 6.0 * 360.0, s * 100.0, l * 100.0)
  }

  /**
   * `rgbToHsl`: hue in [0, 360), saturation and lightness in [0, 100].
   * Saturation is zero exactly for grey pixels, whose hue is reported as 0.
   */
  function RgbToHsl(r: Channel, g: Channel, b: Channel): (c: Hsl)
    ensures 0.0 <= c.h < 360.0
    ensures 0.0 <= c.s <= 100.0
    ensures 0.0 <= c.l <= 100.0
    ensures c.s == 0.0 <==> r == g == b
    ensures r == g == b ==> c.h == 0.0
  {
    UnitToHsl(r as real / 255.0, g as real / 255.0, b as real / 255.0)
  }

  /**
   * The hue bands of `detectColor`, tested in the source's order. The bands
   * are disjoint, so each label is returned exactly on its own band; hues in
   * the gaps [15, 45), [75, 90), [160, 180) and [260, 330] get no label.
   */
  function HueBand(h: real): (lbl: Option<Label>)
    ensures lbl == Some(Red) <==> (0.0 <= h < 15.0 || 330.0 < h <= 360.0)
    ensures lbl == Some(Yellow) <==> 45.0 <= h < 75.0
    ensures lbl == Some(Green) <==> 90.0 <= h < 160.0
    ensures lbl == Some(Blue) <==> 180.0 <= h < 260.0
  {
    if (h >= 0.0 && h < 15.0) || (h > 330.0 && h <= 360.0) then Some(Red)
    else if h >= 45.0 && h < 75.0 then Some(Yellow)
    else if h >= 90.0 && h < 160.0 then Some(Green)
    else if h >= 180.0 && h < 260.0 then Some(Blue)
    else None
  }

  /** The rejection test of `detectColor`: too grey, too dark or too light. */
  predicate Washed(c: Hsl)
  {
    c.s < 20.0 || c.l < 15.0 || c.l > 90.0
  }

  /**
   * `detectColor`: a washed-out pixel (saturation below 20, lightness below
   * 15 or above 90) has no label whatever its hue, every grey pixel among
   * them; any other pixel is labelled by its hue band alone.
   */
  function DetectColor(r: Channel, g: Channel, b: Channel): (lbl: Option<Label>)
    ensures Washed(RgbToHsl(r, g, b)) ==> lbl == None
    ensures r == g == b ==> lbl == None
    ensures !Washed(RgbToHsl(r, g, b)) ==> lbl == HueBand(RgbToHsl(r, g, b).h)
  {
    var c := RgbToHsl(r, g, b);
    if Washed(c) then None else HueBand(c.h)
  }

  /** The chroma (largest minus smallest channel, on the 0..1 scale) recovered from saturation and lightness. */
  function Chroma(c: Hsl): real
  {
    var l, s := c.l / 100.0, c.s / 100.0;
    if l <= 0.5 then 2.0 * l * s else (2.0 - 2.0 * l) * s
  }

  /** The channels above the smallest one, placed by the hue sextant `x` in [0, 6). */
  function Spread(chroma: real, x: real): Rgb
  {
    if x < 1.0 then Rgb(chroma, chroma * x, 0.0)
    else if x < 2.0 then Rgb(chroma * (2.0 - x), chroma, 0.0)
    else if x < 3.0 then Rgb(0.0, chroma, chroma * (x - 2.0))
    else if x < 4.0 then Rgb(0.0, chroma * (4.0 - x), chroma)
    else if x < 5.0 then Rgb(chroma * (x - 4.0), 0.0, chroma)
    else Rgb(chroma, 0.0, chroma * (6.0 - x))
  }

  /**
   * The standard conversion back from hue, saturation and lightness to the
   * 0..255 channel scale: the chroma spread over the channels by the hue
   * sextant, plus the smallest channel on all three.
   */
  function HslToRgb(c: Hsl): Rgb
  {
    var chroma := Chroma(c);
    var m := c.l / 100.0 - chroma / 2.0;
    var p := Spread(chroma, c.h / 60.0);
    Rgb((p.r + m) * 255.0, (p.g + m) * 255.0, (p.b + m) * 255.0)
  }

  /** Lightness and saturation as `rgbToHsl` computes them give back the chroma `mx - mn`. */
  lemma ChromaOfExtremes(h: real, mx: real, mn: real)
    requires 0.0 <= mn < mx <= 1.0
    ensures var l := (mx + mn) / 2.0;
            var s := if l > 0.5 then (mx - mn) / (2.0 - mx - mn) else (mx - mn) / (mx + mn);
            Chroma(Hsl(h, s * 100.0, l * 100.0)) == mx - mn
  {
    var l := (mx + mn) / 2.0;
    var d := mx - mn;
    if l > 0.5 {
      var s := d / (2.0 - mx - mn);
      assert s * (2.0 - mx - mn) == d;
      assert (2.0 - 2.0 * l) * s == d;
    } else {
      var s := d / (mx + mn);
      assert s * (mx + mn) == d;
      assert 2.0 * l * s == d;
    }
  }

  /** A factor multiplied by a positive number keeps its sign. */
  lemma SignOfFactor(a: real, d: real)
    requires d > 0.0
    ensures a * d > 0.0 ==> a > 0.0
    ensures a * d < 0.0 ==> a < 0.0
    ensures a * d == 0.0 ==> a == 0.0
  {
  }

  // The six ways the largest and smallest channels can be arranged, one lemma
  // each: the sextant places the chroma so that every channel is recovered.

  lemma SpreadRedOverGreen(rn: real, gn: real, bn: real)
    requires rn >= gn >= bn && rn > bn
    ensures Spread(rn - bn, (gn - bn) / (rn - bn)) == Rgb(rn - bn, gn - bn, 0.0)
  {
    var d, x := rn - bn, (gn - bn) / (rn - bn);
    assert x * d == gn - bn;
    assert 0.0 <= x <= 1.0;
  }

  lemma SpreadRedOverBlue(rn: real, gn: real, bn: real)
    requires rn >= bn > gn
    ensures Spread(rn - gn, (gn - bn) / (rn - gn) + 6.0) == Rgb(rn - gn, 0.0, bn - gn)
  {
    var d, q := rn - gn, (gn - bn) / (rn - gn);
    assert q * d == gn - bn;
    assert -1.0 <= q < 0.0;
  }

  lemma SpreadGreenOverRed(rn: real, gn: real, bn: real)
    requires gn > rn >= bn
    ensures Spread(gn - bn, (bn - rn) / (gn - bn) + 2.0) == Rgb(rn - bn, gn - bn, 0.0)
  {
    var d, q := gn - bn, (bn - rn) / (gn - bn);
    assert q * d == bn - rn;
    SignOfFactor(q + 1.0, d);
    assert (q + 1.0) * d == gn - rn;
  }

  lemma SpreadGreenOverBlue(rn: real, gn: real, bn: real)
    requires gn >= bn > rn
    ensures Spread(gn - rn, (bn - rn) / (gn - rn) + 2.0) == Rgb(0.0, gn - rn, bn - rn)
  {
    var d, q := gn - rn, (bn - rn) / (gn - rn);
    assert q * d == bn - rn;
    SignOfFactor(q, d);
    SignOfFactor(q - 1.0, d);
    assert (q - 1.0) * d == bn - gn;
  }

  lemma SpreadBlueOverRed(rn: real, gn: real, bn: real)
    requires bn > rn >= gn && bn > gn
    ensures Spread(bn - gn, (rn - gn) / (bn - gn) + 4.0) == Rgb(rn - gn, 0.0, bn - gn)
  {
    var d, q := bn - gn, (rn - gn) / (bn - gn);
    assert q * d == rn - gn;
    SignOfFactor(q, d);
    SignOfFactor(q - 1.0, d);
    assert (q - 1.0) * d == rn - bn;
  }

  lemma SpreadBlueOverGreen(rn: real, gn: real, bn: real)
    requires bn > gn > rn
    ensures Spread(bn - rn, (rn - gn) / (bn - rn) + 4.0) == Rgb(0.0, gn - rn, bn - rn)
  {
    var d, q := bn - rn, (rn - gn) / (bn - rn);
    assert q * d == rn - gn;
    SignOfFactor(q, d);
    SignOfFactor(q + 1.0, d);
    assert (q + 1.0) * d == bn - gn;
  }

  /** The hue sextant spreads the chroma back onto the channels above the smallest one. */
  lemma SpreadRecovered(rn: real, gn: real, bn: real)
    requires !(rn == gn == bn)
    ensures var mx, mn := Max3(rn, gn, bn), Min3(rn, gn, bn);
            Spread(mx - mn, Sextant(rn, gn, bn)) == Rgb(rn - mn, gn - mn, bn - mn)
  {
    if rn >= gn && rn >= bn {
      if gn >= bn { SpreadRedOverGreen(rn, gn, bn); } else { SpreadRedOverBlue(rn, gn, bn); }
    } else if gn >= bn {
      if rn >= bn { SpreadGreenOverRed(rn, gn, bn); } else { SpreadGreenOverBlue(rn, gn, bn); }
    } else {
      if rn >= gn { SpreadBlueOverRed(rn, gn, bn); } else { SpreadBlueOverGreen(rn, gn, bn); }
    }
  }

  lemma UnitRoundTrip(rn: real, gn: real, bn: real)
    requires Unit(rn) && Unit(gn) && Unit(bn)
    ensures HslToRgb(UnitToHsl(rn, gn, bn)) == Rgb(rn * 255.0, gn * 255.0, bn * 255.0)
  {
    var mx, mn := Max3(rn, gn, bn), Min3(rn, gn, bn);
    var c := UnitToHsl(rn, gn, bn);
    if mx == mn {
      return;
    }
    ChromaOfExtremes(c.h, mx, mn);
    SpreadRecovered(rn, gn, bn);
    assert c.h / 60.0 == Sextant(rn, gn, bn);
  }

  /** `rgbToHsl` loses nothing: converting back gives the pixel's own channels. */
  lemma RgbToHslRoundTrip(r: Channel, g: Channel, b: Channel)
    ensures HslToRgb(RgbToHsl(r, g, b)) == Rgb(r as real, g as real, b as real)
  {
    UnitRoundTrip(r as real / 255.0, g as real / 255.0, b as real / 255.0);
  }

  /** A fraction of the chroma stays within the chroma, strictly below it when the fraction is. */
  lemma ScaledBelow(chroma: real, a: real, y: real)
    requires chroma > 0.0 && 0.0 <= a <= 1.0 && y == chroma * a
    ensures 0.0 <= y <= chroma
    ensures a < 1.0 ==> y < chroma
    ensures a > 0.0 ==> y > 0.0
  {
  }

  // Where each hue band puts the chroma, one lemma per label: which channel
  // the band makes the largest (or, for yellow, the smallest).

  lemma SpreadRedBand(chroma: real, x: real)
    requires chroma > 0.0 && (0.0 <= x < 0.25 || 5.5 < x < 6.0)
    ensures var p := Spread(chroma, x); p.r > p.g && p.r > p.b
  {
    if x < 1.0 {
      var p := Spread(chroma, x);
      assert p == Rgb(chroma, chroma * x, 0.0);
      ScaledBelow(chroma, x, p.g);
    } else {
      var p := Spread(chroma, x);
      assert p == Rgb(chroma, 0.0, chroma * (6.0 - x));
      ScaledBelow(chroma, 6.0 - x, p.b);
    }
  }

  lemma SpreadYellowBand(chroma: real, x: real)
    requires chroma > 0.0 && 0.75 <= x < 1.25
    ensures var p := Spread(chroma, x); p.r > p.b && p.g > p.b
  {
    if x < 1.0 {
      var p := Spread(chroma, x);
      assert p == Rgb(chroma, chroma * x, 0.0);
      ScaledBelow(chroma, x, p.g);
    } else {
      var p := Spread(chroma, x);
      assert p == Rgb(chroma * (2.0 - x), chroma, 0.0);
      ScaledBelow(chroma, 2.0 - x, p.r);
    }
  }

  lemma SpreadGreenBand(chroma: real, x: real)
    requires chroma > 0.0 && 1.5 <= x < 8.0 / 3.0
    ensures var p := Spread(chroma, x); p.g > p.r && p.g > p.b
  {
    if x < 2.0 {
      var p := Spread(chroma, x);
      assert p == Rgb(chroma * (2.0 - x), chroma, 0.0);
      ScaledBelow(chroma, 2.0 - x, p.r);
    } else {
      var p := Spread(chroma, x);
      assert p == Rgb(0.0, chroma, chroma * (x - 2.0));
      ScaledBelow(chroma, x - 2.0, p.b);
    }
  }

  lemma SpreadBlueBand(chroma: real, x: real)
    requires chroma > 0.0 && 3.0 <= x < 13.0 / 3.0
    ensures var p := Spread(chroma, x); p.b > p.r && p.b >= p.g
  {
    if x < 4.0 {
      var p := Spread(chroma, x);
      assert p == Rgb(0.0, chroma * (4.0 - x), chroma);
      ScaledBelow(chroma, 4.0 - x, p.g);
    } else {
      var p := Spread(chroma, x);
      assert p == Rgb(chroma * (x - 4.0), 0.0, chroma);
      ScaledBelow(chroma, x - 4.0, p.r);
    }
  }

  /** A pixel that is not washed out has a positive chroma. */
  lemma ChromaPositive(c: Hsl)
    requires !Washed(c)
    ensures Chroma(c) > 0.0
  {
  }

  /** The hue band of a colour that is not washed out names its dominant channel. */
  lemma BandDominance(c: Hsl, p: Rgb)
    requires p == HslToRgb(c) && !Washed(c) && 0.0 <= c.h < 360.0
    ensures HueBand(c.h) == Some(Red) ==> p.r > p.g && p.r > p.b
    ensures HueBand(c.h) == Some(Yellow) ==> p.r > p.b && p.g > p.b
    ensures HueBand(c.h) == Some(Green) ==> p.g > p.r && p.g > p.b
    ensures HueBand(c.h) == Some(Blue) ==> p.b > p.r && p.b >= p.g
  {
    var chroma, x := Chroma(c), c.h / 60.0;
    ChromaPositive(c);
    var band := HueBand(c.h);
    if band == Some(Red) {
      SpreadRedBand(chroma, x);
    } else if band == Some(Yellow) {
      SpreadYellowBand(chroma, x);
    } else if band == Some(Green) {
      SpreadGreenBand(chroma, x);
    } else if band == Some(Blue) {
      SpreadBlueBand(chroma, x);
    }
  }

  /**
   * A label names the pixel's dominant channel: `Red` only when red is the
   * strictly largest channel, `Green` only when green is, `Blue` only when
   * blue is at least as large as green and larger than red, and `Yellow`
   * only when blue is the strictly smallest channel.
   */
  lemma LabelDominance(r: Channel, g: Channel, b: Channel)
    ensures DetectColor(r, g, b) == Some(Red) ==> r > g && r > b
    ensures DetectColor(r, g, b) == Some(Yellow) ==> r > b && g > b
    ensures DetectColor(r, g, b) == Some(Green) ==> g > r && g > b
    ensures DetectColor(r, g, b) == Some(Blue) ==> b > r && b >= g
  {
    var c := RgbToHsl(r, g, b);
    if !Washed(c) {
      RgbToHslRoundTrip(r, g, b);
      BandDominance(c, Rgb(r as real, g as real, b as real));
    }
  }

  /** Band edges are exact: 15 and 330 are outside the red band, values just inside are in it. */
  lemma RedBandEdges()
    ensures HueBand(14.999) == Some(Red) && HueBand(15.0) == None
    ensures HueBand(330.0) == None && HueBand(330.1) == Some(Red)
    ensures HueBand(45.0) == Some(Yellow) && HueBand(75.0) == None
    ensures HueBand(90.0) == Some(Green) && HueBand(160.0) == None
    ensures HueBand(180.0) == Some(Blue) && HueBand(260.0) == None
  {
  }

  /** A saturated dark red pixel: hue 0, saturation 76, lightness 2500/51 (about 49), labelled red. */
  lemma DarkRedPixel()
    ensures RgbToHsl(220, 30, 30) == Hsl(0.0, 76.0, 2500.0 / 51.0)
    ensures DetectColor(220, 30, 30) == Some(Red)
  {
  }
}
