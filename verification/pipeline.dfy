/** `createMatrixFilters`: the per-domain settings become one combined colour
    matrix, built by left-multiplying the effect matrices in a fixed order,
    and its Gauss-Jordan inverse; both are serialised as 4x5 coefficient
    lists for the page filter and the filter on excluded elements. */
module Pipeline {
  import opened ColorMatrix
  import opened Effects
  import opened GaussJordan

  /** The settings the engine reads for one domain. */
  datatype EffectParams = EffectParams(
    hue: real,
    contrast: real,
    brightness: real,
    saturation: real,
    tint: TintColour)

  /** The two coefficient lists handed to the rendering surface. */
  datatype CombinedFilter = CombinedFilter(forward: seq<real>, inverse: seq<real>)

  /** Every entry of `ms` is an affine 5x5 matrix. */
  predicate AllAffine(ms: seq<Grid>) {
    forall k :: 0 <= k < |ms| ==> IsAffine(ms[k])
  }

  /** The effect matrices in the order they are multiplied in: saturation,
      brightness, contrast, hue rotation, tint and the tint's brightness
      boost. */
  function Stages(p: EffectParams, t: Trig): (ms: seq<Grid>)
    requires t.sqrt3 > 0.0
    ensures |ms| == 6 && AllAffine(ms)
  {
    [Saturation(p.saturation), Brightness(p.brightness), Contrast(p.contrast),
     HueRotate(p.hue, t), Tint(p.tint), TintBoost(p.tint)]
  }

  /** Left-multiplies each matrix of `ms` onto `acc` in turn, as
      `createMatrixFilters` reassigns `combinedMatrix = multiply(stage,
      combinedMatrix)`. */
  function Accumulate(ms: seq<Grid>, acc: Grid): (m: Grid)
    requires AllAffine(ms) && IsAffine(acc)
    ensures IsAffine(m)
    decreases |ms|
  {
    if |ms| == 0 then acc
    else
      MultiplyKeepsAffine(ms[0], acc);
      Accumulate(ms[1..], Multiply(ms[0], acc))
  }

  /** Applies each matrix of `ms` to a colour in turn, first to last. */
  function ApplyAll(ms: seq<Grid>, c: seq<real>): (r: seq<real>)
    requires AllAffine(ms) && |c| == N
    ensures |r| == N
    decreases |ms|
  {
    if |ms| == 0 then c else ApplyAll(ms[1..], Apply(ms[0], c))
  }

  /** The accumulated matrix applies the stages to a colour one after the
      other, after `acc`. */
  lemma {:induction false} AccumulateApplies(ms: seq<Grid>, acc: Grid, c: seq<real>)
    requires AllAffine(ms) && IsAffine(acc) && |c| == N
    ensures Apply(Accumulate(ms, acc), c) == ApplyAll(ms, Apply(acc, c))
    decreases |ms|
  {
    if |ms| > 0 {
      MultiplyKeepsAffine(ms[0], acc);
      ApplyMultiply(ms[0], acc, c);
      AccumulateApplies(ms[1..], Multiply(ms[0], acc), c);
    }
  }

  /** Accumulating identity stages leaves the accumulator as it is. */
  lemma {:induction false} AccumulateIdentities(ms: seq<Grid>, acc: Grid)
    requires AllAffine(ms) && IsAffine(acc)
    requires forall k :: 0 <= k < |ms| ==> ms[k] == Identity()
    ensures Accumulate(ms, acc) == acc
    decreases |ms|
  {
    if |ms| > 0 {
      MultiplyIdentityLeft(acc);
      AccumulateIdentities(ms[1..], Multiply(ms[0], acc));
    }
  }

  /** The combined matrix: start from the identity and accumulate the
      stages. */
  function CombinedMatrix(p: EffectParams, t: Trig): (m: Grid)
    requires t.sqrt3 > 0.0
    ensures IsAffine(m)
  {
    Accumulate(Stages(p, t), Identity())
  }

  /** The combined matrix applies the effects to a colour in the fixed order
      saturation, brightness, contrast, hue rotation, tint, boost. */
  lemma CombinedAppliesInOrder(p: EffectParams, t: Trig, c: seq<real>)
    requires t.sqrt3 > 0.0 && |c| == N
    ensures Apply(CombinedMatrix(p, t), c)
      == Apply(TintBoost(p.tint), Apply(Tint(p.tint), Apply(HueRotate(p.hue, t),
           Apply(Contrast(p.contrast), Apply(Brightness(p.brightness), Apply(Saturation(p.saturation), c))))))
  {
    var ms := Stages(p, t);
    AccumulateApplies(ms, Identity(), c);
    ApplyIdentity(c);
    var c1 := Apply(Saturation(p.saturation), c);
    var c2 := Apply(Brightness(p.brightness), c1);
    var c3 := Apply(Contrast(p.contrast), c2);
    var c4 := Apply(HueRotate(p.hue, t), c3);
    var c5 := Apply(Tint(p.tint), c4);
    assert ApplyAll(ms, c) == ApplyAll(ms[1..], c1);
    assert ApplyAll(ms[1..], c1) == ApplyAll(ms[2..], c2) by { assert ms[1..][1..] == ms[2..]; }
    assert ApplyAll(ms[2..], c2) == ApplyAll(ms[3..], c3) by { assert ms[2..][1..] == ms[3..]; }
    assert ApplyAll(ms[3..], c3) == ApplyAll(ms[4..], c4) by { assert ms[3..][1..] == ms[4..]; }
    assert ApplyAll(ms[4..], c4) == ApplyAll(ms[5..], c5) by { assert ms[4..][1..] == ms[5..]; }
    assert ApplyAll(ms[5..], c5) == ApplyAll(ms[6..], Apply(TintBoost(p.tint), c5)) by { assert ms[5..][1..] == ms[6..]; }
  }

  /** No hue shift, contrast, brightness and saturation 1, tint intensity 0. */
  predicate IsNeutralSetting(p: EffectParams) {
    p.hue == 0.0 && p.contrast == 1.0 && p.brightness == 1.0 && p.saturation == 1.0 && p.tint.a == 0.0
  }

  /** Settings under which no stage mixes channels: hue and saturation within
      their short-circuit windows, and contrast exactly 1. */
  predicate IsUnmixedSetting(p: EffectParams) {
    Abs(p.hue) < NeutralEpsilon && Abs(p.saturation - 1.0) < NeutralEpsilon && p.contrast == 1.0
  }

  /** Under unmixed settings, the factor a channel of tint level `channel` is
      scaled by: brightness, then the tint gain, then the boost. */
  function ChannelScale(p: EffectParams, channel: real): real {
    BoostFactor(p.tint.a) * (TintGain(channel, p.tint.a) * p.brightness)
  }

  /** Neutral settings give exactly the identity, whatever the tint colour. */
  lemma NeutralSettingsGiveIdentity(p: EffectParams, t: Trig)
    requires t.sqrt3 > 0.0 && IsNeutralSetting(p)
    ensures CombinedMatrix(p, t) == Identity()
  {
    SaturationOneIsIdentity();
    BrightnessOneIsIdentity();
    ContrastOneIsIdentity();
    HueRotateZeroIsIdentity(t);
    TintZeroIntensityIsIdentity(p.tint);
    AccumulateIdentities(Stages(p, t), Identity());
  }

  /** Without a tint every stage keeps greys grey, so the whole pipeline maps
      a neutral colour to a neutral colour with the same alpha. */
  lemma UntintedPipelineKeepsNeutrals(p: EffectParams, t: Trig, c: seq<real>)
    requires t.sqrt3 > 0.0 && p.tint.a == 0.0 && IsNeutral(c)
    ensures IsNeutral(Apply(CombinedMatrix(p, t), c)) && Apply(CombinedMatrix(p, t), c)[3] == c[3]
  {
    var c1 := Apply(Saturation(p.saturation), c);
    SaturationKeepsNeutral(p.saturation, c);
    var c2 := Apply(Brightness(p.brightness), c1);
    BrightnessKeepsNeutrals(p.brightness, c1);
    var c3 := Apply(Contrast(p.contrast), c2);
    ContrastKeepsNeutrals(p.contrast, c2);
    var c4 := Apply(HueRotate(p.hue, t), c3);
    HueRotateKeepsNeutral(p.hue, t, c3);
    TintZeroIntensityIsIdentity(p.tint);
    ApplyIdentity(c4);
    CombinedAppliesInOrder(p, t, c);
  }

  /** One step of the fold. */
  lemma AccumulateStep(ms: seq<Grid>, k: nat, acc: Grid)
    requires AllAffine(ms) && k < |ms| && IsAffine(acc)
    ensures IsAffine(Multiply(ms[k], acc))
    ensures Accumulate(ms[k..], acc) == Accumulate(ms[k + 1..], Multiply(ms[k], acc))
  {
    MultiplyKeepsAffine(ms[k], acc);
    assert ms[k..][1..] == ms[k + 1..];
  }

  lemma BrightnessIsDiagonal(v: real)
    ensures IsDiagonal(Brightness(v)) && Brightness(v)[0][0] == v && Brightness(v)[1][1] == v && Brightness(v)[2][2] == v
  {
  }

  lemma TintIsDiagonal(c: TintColour)
    ensures IsDiagonal(Tint(c))
    ensures Tint(c)[0][0] == TintGain(c.r, c.a) && Tint(c)[1][1] == TintGain(c.g, c.a) && Tint(c)[2][2] == TintGain(c.b, c.a)
  {
  }

  /** Six stages whose first, third and fourth are the identity fold to the
      product of the other three. */
  lemma AccumulateSkippingIdentities(ms: seq<Grid>)
    requires |ms| == 6 && AllAffine(ms)
    requires ms[0] == Identity() && ms[2] == Identity() && ms[3] == Identity()
    ensures IsAffine(Multiply(ms[4], ms[1]))
    ensures Accumulate(ms, Identity()) == Multiply(ms[5], Multiply(ms[4], ms[1]))
  {
    var e := Identity();
    MultiplyKeepsAffine(ms[4], ms[1]);
    calc {
      Accumulate(ms, e);
      { assert ms[0..] == ms; }
      Accumulate(ms[0..], e);
      { AccumulateStep(ms, 0, e); MultiplyIdentityLeft(e); }
      Accumulate(ms[1..], e);
      { AccumulateStep(ms, 1, e); MultiplyIdentityRight(ms[1]); }
      Accumulate(ms[2..], ms[1]);
      { AccumulateStep(ms, 2, ms[1]); MultiplyIdentityLeft(ms[1]); }
      Accumulate(ms[3..], ms[1]);
      { AccumulateStep(ms, 3, ms[1]); MultiplyIdentityLeft(ms[1]); }
      Accumulate(ms[4..], ms[1]);
      { AccumulateStep(ms, 4, ms[1]); }
      Accumulate(ms[5..], Multiply(ms[4], ms[1]));
      { AccumulateStep(ms, 5, Multiply(ms[4], ms[1])); }
      Accumulate(ms[6..], Multiply(ms[5], Multiply(ms[4], ms[1])));
    }
  }

  /** Under unmixed settings saturation, contrast and hue rotation are the
      identity, so the fold reduces to boost * (tint * brightness). */
  lemma UnmixedCombinedMatrix(p: EffectParams, t: Trig)
    requires t.sqrt3 > 0.0 && IsUnmixedSetting(p)
    ensures CombinedMatrix(p, t) == Multiply(TintBoost(p.tint), Multiply(Tint(p.tint), Brightness(p.brightness)))
  {
    ContrastOneIsIdentity();
    AccumulateSkippingIdentities(Stages(p, t));
  }

  /** A product of three diagonal matrices is diagonal, and its entry k is
      the product of their entries k. */
  lemma DiagonalProductEntry(a: Grid, b: Grid, c: Grid, k: nat, x: real, y: real, z: real)
    requires IsMatrix(a) && IsMatrix(b) && IsMatrix(c) && IsDiagonal(a) && IsDiagonal(b) && IsDiagonal(c) && k < N
    requires a[k][k] == x && b[k][k] == y && c[k][k] == z
    ensures IsDiagonal(Multiply(a, Multiply(b, c)))
    ensures Multiply(a, Multiply(b, c))[k][k] == x * (y * z)
  {
    MultiplyDiagonal(b, c);
    MultiplyDiagonal(a, Multiply(b, c));
  }

  /** Under unmixed settings the combined matrix only scales channels: it is
      diagonal, with ChannelScale on the RGB diagonal. */
  lemma UnmixedSettingsAreDiagonal(p: EffectParams, t: Trig)
    requires t.sqrt3 > 0.0 && IsUnmixedSetting(p)
    ensures IsDiagonal(CombinedMatrix(p, t))
    ensures CombinedMatrix(p, t)[0][0] == ChannelScale(p, p.tint.r)
    ensures CombinedMatrix(p, t)[1][1] == ChannelScale(p, p.tint.g)
    ensures CombinedMatrix(p, t)[2][2] == ChannelScale(p, p.tint.b)
  {
    var b, tn, tb := Brightness(p.brightness), Tint(p.tint), TintBoost(p.tint);
    var f, a := BoostFactor(p.tint.a), p.tint.a;
    UnmixedCombinedMatrix(p, t);
    BrightnessIsDiagonal(p.brightness);
    BrightnessIsDiagonal(f);
    TintIsDiagonal(p.tint);
    DiagonalProductEntry(tb, tn, b, 0, f, TintGain(p.tint.r, a), p.brightness);
    DiagonalProductEntry(tb, tn, b, 1, f, TintGain(p.tint.g, a), p.brightness);
    DiagonalProductEntry(tb, tn, b, 2, f, TintGain(p.tint.b, a), p.brightness);
  }

  /** A diagonal matrix with 1 in the last two places has a diagonal entry
      below the pivot threshold exactly when one of its RGB entries does. */
  lemma SmallDiagonalEntries(m: Grid, x: real, y: real, z: real)
    requires IsMatrix(m) && m[0][0] == x && m[1][1] == y && m[2][2] == z && m[3][3] == 1.0 && m[4][4] == 1.0
    ensures HasSmallDiagonal(m) <==> (Abs(x) < SingularThreshold || Abs(y) < SingularThreshold || Abs(z) < SingularThreshold)
  {
    if Abs(x) < SingularThreshold || Abs(y) < SingularThreshold || Abs(z) < SingularThreshold {
      assert HasSmallDiagonal(m);
    }
  }

  /** Under unmixed settings the combined matrix has a diagonal entry below
      the pivot threshold exactly when one channel's scale is. */
  lemma UnmixedSmallDiagonal(p: EffectParams, t: Trig)
    requires t.sqrt3 > 0.0 && IsUnmixedSetting(p)
    ensures IsDiagonal(CombinedMatrix(p, t))
    ensures HasSmallDiagonal(CombinedMatrix(p, t)) <==>
      (Abs(ChannelScale(p, p.tint.r)) < SingularThreshold || Abs(ChannelScale(p, p.tint.g)) < SingularThreshold
        || Abs(ChannelScale(p, p.tint.b)) < SingularThreshold)
  {
    var m := CombinedMatrix(p, t);
    UnmixedSettingsAreDiagonal(p, t);
    SmallDiagonalEntries(m, ChannelScale(p, p.tint.r), ChannelScale(p, p.tint.g), ChannelScale(p, p.tint.b));
  }

  /** A matrix that keeps alpha and the homogeneous term has right inverses
      that keep them too. */
  lemma RightInverseIsAffine(m: Grid, x: Grid)
    requires IsAffine(m) && IsMatrix(x) && Multiply(m, x) == Identity()
    ensures IsAffine(x)
  {
    var p := Multiply(m, x);
    forall j | 0 <= j < N
      ensures x[3][j] == Identity()[3][j] && x[4][j] == Identity()[4][j]
    {
      DotExplicit(m[3], Column(x, j));
      DotExplicit(m[4], Column(x, j));
      assert p[3][j] == Dot(m[3], Column(x, j)) == x[3][j];
      assert p[4][j] == Dot(m[4], Column(x, j)) == x[4][j];
    }
  }

  /** The forward filter undoes any right inverse of its matrix: a colour
      passed through the inverse and then the forward filter keeps its value. */
  lemma ForwardUndoesRightInverse(m: Grid, x: Grid, c: seq<real>)
    requires IsMatrix(m) && IsMatrix(x) && Multiply(m, x) == Identity() && |c| == N
    ensures Apply(m, Apply(x, c)) == c
  {
    ApplyMultiply(m, x, c);
    ApplyIdentity(c);
  }

  /** The identity is diagonal with no entry below the pivot threshold. */
  lemma IdentityHasUnitDiagonal()
    ensures IsDiagonal(Identity()) && !HasSmallDiagonal(Identity())
  {
    var e := Identity();
    assert forall k :: 0 <= k < N ==> e[k][k] == 1.0;
  }

  /** The inverse of the identity, as Inverse promises it, is the identity
      itself and never the fallback. */
  lemma IdentityInverse(m: Grid, inv: Grid, singular: bool)
    requires m == Identity() && IsMatrix(inv)
    requires singular ==> inv == Identity()
    requires !singular ==> Multiply(m, inv) == Identity()
    requires IsDiagonal(m) ==> (singular <==> HasSmallDiagonal(m))
    ensures !singular && inv == Identity()
  {
    IdentityHasUnitDiagonal();
    MultiplyIdentityLeft(inv);
  }

  /** `createMatrixFilters` (numeric payload only): the forward list is the
      combined matrix, and the inverse list is either the identity (singular
      fallback) or a right inverse of it, which the forward filter undoes
      by ForwardUndoesRightInverse. Neutral settings never fall back and
      give the identity list twice; under unmixed settings the fallback
      happens exactly when some channel's overall scale is below the pivot
      threshold. */
  method CreateMatrixFilters(p: EffectParams, t: Trig) returns (f: CombinedFilter, singular: bool)
    requires t.sqrt3 > 0.0
    ensures |f.forward| == SvgLength && |f.inverse| == SvgLength
    ensures FromSvg(f.forward) == CombinedMatrix(p, t)
    ensures singular ==> FromSvg(f.inverse) == Identity()
    ensures !singular ==> Multiply(CombinedMatrix(p, t), FromSvg(f.inverse)) == Identity()
    ensures IsNeutralSetting(p) ==> !singular && f.forward == f.inverse == ToSvg(Identity())
    ensures IsUnmixedSetting(p) ==> (singular <==>
      (Abs(ChannelScale(p, p.tint.r)) < SingularThreshold || Abs(ChannelScale(p, p.tint.g)) < SingularThreshold
        || Abs(ChannelScale(p, p.tint.b)) < SingularThreshold))
  {
    var m := CombinedMatrix(p, t);
    var inv;
    inv, singular := Inverse(m);
    f := CombinedFilter(ToSvg(m), ToSvg(inv));
    FromSvgToSvg(m);
    if singular {
      FromSvgToSvg(inv);
    } else {
      RightInverseIsAffine(m, inv);
      FromSvgToSvg(inv);
    }
    if IsUnmixedSetting(p) {
      UnmixedSmallDiagonal(p, t);
    }
    if IsNeutralSetting(p) {
      NeutralSettingsGiveIdentity(p, t);
      IdentityInverse(m, inv, singular);
    }
  }
}
