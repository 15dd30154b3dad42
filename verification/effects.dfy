/** The per-effect colour matrices of the content script: brightness,
    contrast, saturation, hue rotation and tint. Each maps one parameter to a
    5x5 matrix that, applied to (r, g, b, a, 1), gives the adjusted colour. */
module Effects {
  import opened ColorMatrix

  /** Saturation and hue rotation return the identity when their parameter is
      closer than this to the neutral value. */
  const NeutralEpsilon: real := 0.000001

  /** How strongly the tint keeps neutrals (`Matrix.tint` fixes it at 1). */
  const NeutralPreservation: real := 1.0

  /** A tint colour: channels r, g, b on 0..255 and intensity a on 0..1. */
  datatype TintColour = TintColour(r: real, g: real, b: real, a: real)

  /** The values `Math.cos`, `Math.sin` of the hue angle in radians and
      `Math.sqrt(3)`, which exact real arithmetic cannot compute; the caller
      supplies them. */
  datatype Trig = Trig(cos: real, sin: real, sqrt3: real)

  /** Each of the red, green and blue rows of `m` has coefficients summing to
      one on the RGB block, so an equal-channel input keeps its level. */
  predicate RowsSumToOne(m: Grid)
    requires IsMatrix(m)
  {
    forall i :: 0 <= i < 3 ==> m[i][0] + m[i][1] + m[i][2] == 1.0
  }

  predicate ColumnsSumToOne(m: Grid)
    requires IsMatrix(m)
  {
    forall j :: 0 <= j < 3 ==> m[0][j] + m[1][j] + m[2][j] == 1.0
  }

  /** The RGB block is circulant: shifting both the row and the column by one
      channel (R -> G -> B -> R) leaves each coefficient unchanged. */
  predicate IsCirculant(m: Grid)
    requires IsMatrix(m)
  {
    && m[0][0] == m[1][1] == m[2][2]
    && m[0][1] == m[1][2] == m[2][0]
    && m[0][2] == m[1][0] == m[2][1]
  }

  function Brightness(v: real): (m: Grid)
    ensures IsAffine(m)
  {
    [
      [v, 0.0, 0.0, 0.0, 0.0],
      [0.0, v, 0.0, 0.0, 0.0],
      [0.0, 0.0, v, 0.0, 0.0],
      [0.0, 0.0, 0.0, 1.0, 0.0],
      [0.0, 0.0, 0.0, 0.0, 1.0]
    ]
  }

  /** Contrast about mid-grey: every channel x becomes v * x + (1 - v) / 2,
      the offset riding on the homogeneous column. */
  function Contrast(v: real): (m: Grid)
    ensures IsAffine(m)
  {
    var t := (1.0 - v) / 2.0;
    [
      [v, 0.0, 0.0, 0.0, t],
      [0.0, v, 0.0, 0.0, t],
      [0.0, 0.0, v, 0.0, t],
      [0.0, 0.0, 0.0, 1.0, 0.0],
      [0.0, 0.0, 0.0, 0.0, 1.0]
    ]
  }

  /** Saturation: each channel moves toward the equal-weight mean of the
      three channels, x -> v * x + (1 - v) * (r + g + b) / 3, except that a
      value within NeutralEpsilon of 1 gives exactly the identity. */
  function Saturation(v: real): (m: Grid)
    ensures IsAffine(m) && RowsSumToOne(m)
    ensures Abs(v - 1.0) < NeutralEpsilon ==> m == Identity()
  {
    if Abs(v - 1.0) < NeutralEpsilon then
      Identity()
    else
      var lum := 1.0 / 3.0;
      var s := (1.0 - v) * lum;
      [
        [s + v, s, s, 0.0, 0.0],
        [s, s + v, s, 0.0, 0.0],
        [s, s, s + v, 0.0, 0.0],
        [0.0, 0.0, 0.0, 1.0, 0.0],
        [0.0, 0.0, 0.0, 0.0, 1.0]
      ]
  }

  /** Hue rotation about the grey axis. Outside the short-circuit window the
      RGB block is circulant with rows and columns summing to one, whatever
      values stand in for the cosine, sine and square root of 3. */
  function HueRotate(angle: real, t: Trig): (m: Grid)
    requires t.sqrt3 > 0.0
    ensures IsAffine(m) && RowsSumToOne(m) && ColumnsSumToOne(m) && IsCirculant(m)
    ensures Abs(angle) < NeutralEpsilon ==> m == Identity()
    ensures Abs(angle) >= NeutralEpsilon ==> m[0][0] == t.cos + (1.0 - t.cos) / 3.0
    ensures Abs(angle) >= NeutralEpsilon ==> m[0][1] - m[0][2] == -2.0 * t.sin / t.sqrt3
  {
    if Abs(angle) < NeutralEpsilon then
      Identity()
    else
      var d := t.cos + (1.0 - t.cos) / 3.0;
      var p := (1.0 - t.cos) / 3.0 + t.sin / t.sqrt3;
      var q := (1.0 - t.cos) / 3.0 - t.sin / t.sqrt3;
      [
        [d, q, p, 0.0, 0.0],
        [p, d, q, 0.0, 0.0],
        [q, p, d, 0.0, 0.0],
        [0.0, 0.0, 0.0, 1.0, 0.0],
        [0.0, 0.0, 0.0, 0.0, 1.0]
      ]
  }

  /** The equal-weight mean of the red, green and blue channels. */
  function Mean(c: seq<real>): real
    requires |c| == N
  {
    (c[0] + c[1] + c[2]) / 3.0
  }

  /** The intensity actually applied by the tint, discounted by the
      neutral-preservation factor: a * (1 - NeutralPreservation * 0.3). */
  function AdjustedIntensity(a: real): real {
    a * (1.0 - NeutralPreservation * 0.3)
  }

  /** The factor a channel is multiplied by under the tint: a blend between 1
      and the tint's own level for that channel (`channel` on 0..255). */
  function TintGain(channel: real, a: real): real {
    var k := AdjustedIntensity(a);
    1.0 - k + k * (channel / 255.0)
  }

  /** Tint: each channel is scaled by its own gain and channels never mix;
      alpha and the offset are untouched. */
  function Tint(t: TintColour): (m: Grid)
    ensures IsAffine(m)
  {
    var gr := TintGain(t.r, t.a);
    var gg := TintGain(t.g, t.a);
    var gb := TintGain(t.b, t.a);
    [
      [gr, 0.0, 0.0, 0.0, 0.0],
      [0.0, gg, 0.0, 0.0, 0.0],
      [0.0, 0.0, gb, 0.0, 0.0],
      [0.0, 0.0, 0.0, 1.0, 0.0],
      [0.0, 0.0, 0.0, 0.0, 1.0]
    ]
  }

  /** The factor `1 + a * 0.5` of the brightness boost composed after a tint
      of intensity a. */
  function BoostFactor(a: real): real {
    1.0 + a * 0.5
  }

  /** The brightness boost composed after the tint to offset its dimming. */
  function TintBoost(t: TintColour): (m: Grid)
    ensures IsAffine(m)
  {
    Brightness(BoostFactor(t.a))
  }

  // ---------------------------------------------------------------------
  // What each effect does to a colour

  lemma ApplyBrightness(v: real, c: seq<real>)
    requires IsColour(c)
    ensures Apply(Brightness(v), c) == Colour(v * c[0], v * c[1], v * c[2], c[3])
  {
    var m := Brightness(v);
    assert Dot(m[0], c) == v * c[0] by { DotExplicit(m[0], c); }
    assert Dot(m[1], c) == v * c[1] by { DotExplicit(m[1], c); }
    assert Dot(m[2], c) == v * c[2] by { DotExplicit(m[2], c); }
    assert Dot(m[3], c) == c[3] && Dot(m[4], c) == 1.0 by { DotExplicit(m[3], c); DotExplicit(m[4], c); }
    ApplyGivesColour(m, c, v * c[0], v * c[1], v * c[2], c[3]);
  }

  /** Contrast about mid-grey: every channel x becomes v * x + (1 - v) / 2,
      the offset riding on the homogeneous column. */
  lemma ApplyContrast(v: real, c: seq<real>)
    requires IsColour(c)
    ensures var t := (1.0 - v) / 2.0;
      Apply(Contrast(v), c) == Colour(v * c[0] + t, v * c[1] + t, v * c[2] + t, c[3])
  {
    var t := (1.0 - v) / 2.0;
    var m := Contrast(v);
    assert Dot(m[0], c) == v * c[0] + t by { DotExplicit(m[0], c); }
    assert Dot(m[1], c) == v * c[1] + t by { DotExplicit(m[1], c); }
    assert Dot(m[2], c) == v * c[2] + t by { DotExplicit(m[2], c); }
    assert Dot(m[3], c) == c[3] && Dot(m[4], c) == 1.0 by { DotExplicit(m[3], c); DotExplicit(m[4], c); }
    ApplyGivesColour(m, c, v * c[0] + t, v * c[1] + t, v * c[2] + t, c[3]);
  }

  /** Outside the short-circuit window, saturation moves each channel toward
      the equal-weight mean: x becomes v * x + (1 - v) * (r + g + b) / 3. */
  lemma ApplySaturation(v: real, c: seq<real>)
    requires IsColour(c) && Abs(v - 1.0) >= NeutralEpsilon
    ensures Apply(Saturation(v), c)
      == Colour(v * c[0] + (1.0 - v) * Mean(c), v * c[1] + (1.0 - v) * Mean(c), v * c[2] + (1.0 - v) * Mean(c), c[3])
  {
    var m := Saturation(v);
    var s := (1.0 - v) * (1.0 / 3.0);
    assert m[0] == [s + v, s, s, 0.0, 0.0] && m[1] == [s, s + v, s, 0.0, 0.0] && m[2] == [s, s, s + v, 0.0, 0.0];
    DotRowsExplicit(m, c);
    assert Dot(m[0], c) == v * c[0] + (1.0 - v) * Mean(c);
    assert Dot(m[1], c) == v * c[1] + (1.0 - v) * Mean(c);
    assert Dot(m[2], c) == v * c[2] + (1.0 - v) * Mean(c);
    ApplyGivesColour(m, c, v * c[0] + (1.0 - v) * Mean(c), v * c[1] + (1.0 - v) * Mean(c),
      v * c[2] + (1.0 - v) * Mean(c), c[3]);
  }

  /** The tint scales each channel by its own gain; channels never mix and
      alpha is untouched. */
  lemma ApplyTint(t: TintColour, c: seq<real>)
    requires IsColour(c)
    ensures Apply(Tint(t), c)
      == Colour(TintGain(t.r, t.a) * c[0], TintGain(t.g, t.a) * c[1], TintGain(t.b, t.a) * c[2], c[3])
  {
    var m := Tint(t);
    assert Dot(m[0], c) == TintGain(t.r, t.a) * c[0] by { DotExplicit(m[0], c); }
    assert Dot(m[1], c) == TintGain(t.g, t.a) * c[1] by { DotExplicit(m[1], c); }
    assert Dot(m[2], c) == TintGain(t.b, t.a) * c[2] by { DotExplicit(m[2], c); }
    assert Dot(m[3], c) == c[3] && Dot(m[4], c) == 1.0 by { DotExplicit(m[3], c); DotExplicit(m[4], c); }
    ApplyGivesColour(m, c, TintGain(t.r, t.a) * c[0], TintGain(t.g, t.a) * c[1], TintGain(t.b, t.a) * c[2], c[3]);
  }

  /** The boost brightens every channel by the factor 1 + a * 0.5. */
  lemma ApplyTintBoost(t: TintColour, c: seq<real>)
    requires IsColour(c)
    ensures Apply(TintBoost(t), c)
      == Colour(BoostFactor(t.a) * c[0], BoostFactor(t.a) * c[1], BoostFactor(t.a) * c[2], c[3])
  {
    ApplyBrightness(BoostFactor(t.a), c);
  }

  // ---------------------------------------------------------------------
  // Neutral parameters give the identity

  lemma BrightnessOneIsIdentity()
    ensures Brightness(1.0) == Identity()
  {
  }

  lemma ContrastOneIsIdentity()
    ensures Contrast(1.0) == Identity()
  {
  }

  lemma SaturationOneIsIdentity()
    ensures Saturation(1.0) == Identity()
  {
  }

  lemma HueRotateZeroIsIdentity(t: Trig)
    requires t.sqrt3 > 0.0
    ensures HueRotate(0.0, t) == Identity()
  {
  }

  /** Even past the short circuit, a rotation with cosine 1 and sine 0 is the
      identity. */
  lemma HueRotateFullTurnIsIdentity(angle: real, t: Trig)
    requires t.sqrt3 > 0.0 && t.cos == 1.0 && t.sin == 0.0
    ensures HueRotate(angle, t) == Identity()
  {
  }

  lemma TintZeroIntensityIsIdentity(t: TintColour)
    requires t.a == 0.0
    ensures Tint(t) == Identity() && TintBoost(t) == Identity()
  {
  }

  // ---------------------------------------------------------------------
  // Greys stay grey

  /** Saturation, for every value, maps a grey to itself. */
  lemma SaturationKeepsNeutral(v: real, c: seq<real>)
    requires IsNeutral(c)
    ensures Apply(Saturation(v), c) == c
  {
    var m := Saturation(v);
    DotRowsExplicit(m, c);
    assert Dot(m[0], c) == (m[0][0] + m[0][1] + m[0][2]) * c[0] + m[0][3] * c[3] + m[0][4];
    assert Dot(m[1], c) == (m[1][0] + m[1][1] + m[1][2]) * c[0] + m[1][3] * c[3] + m[1][4];
    assert Dot(m[2], c) == (m[2][0] + m[2][1] + m[2][2]) * c[0] + m[2][3] * c[3] + m[2][4];
    ApplyGivesColour(m, c, c[0], c[1], c[2], c[3]);
  }

  /** Hue rotation, for every angle and every stand-in for the trigonometric
      values, maps a grey to itself. */
  lemma HueRotateKeepsNeutral(angle: real, t: Trig, c: seq<real>)
    requires t.sqrt3 > 0.0 && IsNeutral(c)
    ensures Apply(HueRotate(angle, t), c) == c
  {
    var m := HueRotate(angle, t);
    DotRowsExplicit(m, c);
    assert Dot(m[0], c) == (m[0][0] + m[0][1] + m[0][2]) * c[0] + m[0][3] * c[3] + m[0][4];
    assert Dot(m[1], c) == (m[1][0] + m[1][1] + m[1][2]) * c[0] + m[1][3] * c[3] + m[1][4];
    assert Dot(m[2], c) == (m[2][0] + m[2][1] + m[2][2]) * c[0] + m[2][3] * c[3] + m[2][4];
    ApplyGivesColour(m, c, c[0], c[1], c[2], c[3]);
  }

  /** Brightness maps a grey to a grey with the same alpha. */
  lemma BrightnessKeepsNeutrals(v: real, c: seq<real>)
    requires IsNeutral(c)
    ensures IsNeutral(Apply(Brightness(v), c)) && Apply(Brightness(v), c)[3] == c[3]
  {
    ApplyBrightness(v, c);
  }

  /** Contrast maps a grey to a grey with the same alpha. */
  lemma ContrastKeepsNeutrals(v: real, c: seq<real>)
    requires IsNeutral(c)
    ensures IsNeutral(Apply(Contrast(v), c)) && Apply(Contrast(v), c)[3] == c[3]
  {
    ApplyContrast(v, c);
  }

  /** Mid-grey is a fixed point of contrast for every value. */
  lemma ContrastFixesMidGrey(v: real, a: real)
    ensures Apply(Contrast(v), Colour(0.5, 0.5, 0.5, a)) == Colour(0.5, 0.5, 0.5, a)
  {
    DotRowsExplicit(Contrast(v), Colour(0.5, 0.5, 0.5, a));
    ApplyGivesColour(Contrast(v), Colour(0.5, 0.5, 0.5, a), 0.5, 0.5, 0.5, a);
  }

  /** Saturation 0 puts 1/3 in every coefficient of the RGB block. */
  lemma SaturationZeroAverages()
    ensures forall i, j :: 0 <= i < 3 && 0 <= j < 3 ==> Saturation(0.0)[i][j] == 1.0 / 3.0
  {
  }

  /** With intensity on 0..1 and a channel on 0..255, the tint gain lies
      between 0.3 (a black channel at full intensity) and 1 (a white channel,
      or no tint). */
  lemma TintGainBounds(channel: real, a: real)
    requires 0.0 <= a <= 1.0 && 0.0 <= channel <= 255.0
    ensures 0.3 <= TintGain(channel, a) <= 1.0
    ensures channel == 255.0 ==> TintGain(channel, a) == 1.0
  {
    var k := AdjustedIntensity(a);
    var x := channel / 255.0;
    assert 0.0 <= k <= 0.7;
    assert 0.0 <= 1.0 - x <= 1.0;
    ProductBounds(k, 1.0 - x);
    assert TintGain(channel, a) == 1.0 - k * (1.0 - x);
  }

  /** Contrast and brightness do not commute, so the pipeline's order matters. */
  lemma ContrastBrightnessDoNotCommute()
    ensures Multiply(Contrast(1.2), Brightness(1.2)) != Multiply(Brightness(1.2), Contrast(1.2))
  {
    var cb := Multiply(Contrast(1.2), Brightness(1.2));
    var bc := Multiply(Brightness(1.2), Contrast(1.2));
    DotExplicit(Contrast(1.2)[0], Column(Brightness(1.2), 4));
    DotExplicit(Brightness(1.2)[0], Column(Contrast(1.2), 4));
    assert cb[0][4] == Dot(Contrast(1.2)[0], Column(Brightness(1.2), 4)) == -0.1;
    assert bc[0][4] == Dot(Brightness(1.2)[0], Column(Contrast(1.2), 4)) == -0.12;
  }

  /** 0 <= a * b <= a for a >= 0 and b on 0..1. */
  lemma ProductBounds(a: real, b: real)
    requires 0.0 <= a && 0.0 <= b <= 1.0
    ensures 0.0 <= a * b <= a
  {
  }
}
