/** The sepia-only filters: a forward 4x5 coefficient list that blends the
    identity with the standard full-strength sepia matrix by the amount s,
    and a companion list that blends the identity with a fixed 3x3 block
    declared as the inverse of full sepia. */
module Sepia {
  import opened ColorMatrix

  /** The identity as a 4x5 coefficient list. */
  const IdentityValues: seq<real> := [
    1.0, 0.0, 0.0, 0.0, 0.0,
    0.0, 1.0, 0.0, 0.0, 0.0,
    0.0, 0.0, 1.0, 0.0, 0.0,
    0.0, 0.0, 0.0, 1.0, 0.0]

  /** The 4x5 identity list is the serialised 5x5 identity. */
  lemma IdentityValuesSerialiseIdentity()
    ensures ToSvg(Identity()) == IdentityValues
  {
  }

  /** Standard full-strength sepia as a 4x5 coefficient list. */
  const FullSepiaValues: seq<real> := [
    0.393, 0.769, 0.189, 0.0, 0.0,
    0.349, 0.686, 0.168, 0.0, 0.0,
    0.272, 0.534, 0.131, 0.0, 0.0,
    0.0, 0.0, 0.0, 1.0, 0.0]

  /** `fullInverseMatrix`: the RGB block, row-major, declared as the inverse
      of full sepia. */
  const FullInverseBlock: seq<real> := [
    2.023554, -1.621092, -0.402462,
    -1.029568, 2.248103, -0.218535,
    -0.993962, -0.627004, 2.620966]

  /** FullInverseBlock embedded in a 4x5 coefficient list, alpha row kept. */
  const FullInverseValues: seq<real> :=
    var f := FullInverseBlock;
    [
      f[0], f[1], f[2], 0.0, 0.0,
      f[3], f[4], f[5], 0.0, 0.0,
      f[6], f[7], f[8], 0.0, 0.0,
      0.0, 0.0, 0.0, 1.0, 0.0
    ]

  /** Entry-wise linear blend (1 - s) * a + s * b of two coefficient lists. */
  predicate IsBlend(v: seq<real>, s: real, a: seq<real>, b: seq<real>)
    requires |a| == SvgLength && |b| == SvgLength
  {
    |v| == SvgLength && forall k :: 0 <= k < SvgLength ==> v[k] == (1.0 - s) * a[k] + s * b[k]
  }

  /** The forward `matrix` for sepia amount s: each entry is the blend of
      the identity and full sepia. */
  function SepiaValues(s: real): (v: seq<real>)
    ensures IsBlend(v, s, IdentityValues, FullSepiaValues)
  {
    [
      1.0 - s * (1.0 - 0.393), s * 0.769, s * 0.189, 0.0, 0.0,
      s * 0.349, 1.0 - s * (1.0 - 0.686), s * 0.168, 0.0, 0.0,
      s * 0.272, s * 0.534, 1.0 - s * (1.0 - 0.131), 0.0, 0.0,
      0.0, 0.0, 0.0, 1.0, 0.0
    ]
  }

  /** The companion `invMatrix` for sepia amount s: each entry is the blend of
      the identity and the declared full inverse. */
  function InverseSepiaValues(s: real): (v: seq<real>)
    ensures IsBlend(v, s, IdentityValues, FullInverseValues)
  {
    var f := FullInverseBlock;
    [
      1.0 + s * (f[0] - 1.0), s * f[1], s * f[2], 0.0, 0.0,
      s * f[3], 1.0 + s * (f[4] - 1.0), s * f[5], 0.0, 0.0,
      s * f[6], s * f[7], 1.0 + s * (f[8] - 1.0), 0.0, 0.0,
      0.0, 0.0, 0.0, 1.0, 0.0
    ]
  }

  /** The RGB block of a 4x5 coefficient list, row-major. */
  function RgbBlock(v: seq<real>): (b: seq<real>)
    requires |v| == SvgLength
    ensures |b| == 9
  {
    [v[0], v[1], v[2], v[5], v[6], v[7], v[10], v[11], v[12]]
  }

  /** At amount 1 the inverse list's RGB block is `fullInverseMatrix` entry
      for entry, and the forward list's is the standard sepia block. */
  lemma FullAmountBlocks()
    ensures RgbBlock(InverseSepiaValues(1.0)) == FullInverseBlock
    ensures RgbBlock(SepiaValues(1.0)) == [0.393, 0.769, 0.189, 0.349, 0.686, 0.168, 0.272, 0.534, 0.131]
  {
  }

  /** Amount 0 gives the identity in both directions: both lists are the
      serialised 5x5 identity, the same list `createMatrixFilters` emits for
      neutral settings. */
  lemma NoSepiaIsIdentity()
    ensures SepiaValues(0.0) == IdentityValues && InverseSepiaValues(0.0) == IdentityValues
    ensures SepiaValues(0.0) == ToSvg(Identity()) && InverseSepiaValues(0.0) == ToSvg(Identity())
  {
    IdentityValuesSerialiseIdentity();
    var f, g := SepiaValues(0.0), InverseSepiaValues(0.0);
    assert forall k :: 0 <= k < SvgLength ==> f[k] == IdentityValues[k] && g[k] == IdentityValues[k];
  }

  /** Amount 1 gives the standard sepia coefficients and the declared
      inverse block. */
  lemma FullSepiaIsStandard()
    ensures SepiaValues(1.0) == FullSepiaValues && InverseSepiaValues(1.0) == FullInverseValues
  {
    var f, g := SepiaValues(1.0), InverseSepiaValues(1.0);
    assert forall k :: 0 <= k < SvgLength ==> f[k] == FullSepiaValues[k] && g[k] == FullInverseValues[k];
  }

  /** For every amount both lists keep alpha: the alpha row is [0, 0, 0, 1, 0]
      and the offset entries 4, 9 and 14 are 0, so both read back as matrices
      that leave alpha and the homogeneous term alone. */
  lemma SepiaKeepsAlphaAndOffsets(s: real)
    ensures SepiaValues(s)[15..] == [0.0, 0.0, 0.0, 1.0, 0.0] && InverseSepiaValues(s)[15..] == [0.0, 0.0, 0.0, 1.0, 0.0]
    ensures SepiaValues(s)[4] == SepiaValues(s)[9] == SepiaValues(s)[14] == 0.0
    ensures InverseSepiaValues(s)[4] == InverseSepiaValues(s)[9] == InverseSepiaValues(s)[14] == 0.0
    ensures IsAffine(FromSvg(SepiaValues(s))) && IsAffine(FromSvg(InverseSepiaValues(s)))
  {
  }

  /** The declared inverse does not undo full sepia: pure red through both
      filters comes back with a red channel of 0.12002595, not 1. */
  lemma DeclaredInverseDoesNotUndoSepia()
    ensures Apply(FromSvg(InverseSepiaValues(1.0)), Apply(FromSvg(SepiaValues(1.0)), Colour(1.0, 0.0, 0.0, 1.0)))[0]
      == 0.12002595
  {
    FullSepiaIsStandard();
    var red := Colour(1.0, 0.0, 0.0, 1.0);
    var sepiaRed := Apply(FromSvg(FullSepiaValues), red);
    DotRowsExplicit(FromSvg(FullSepiaValues), red);
    DotRowsExplicit(FromSvg(FullInverseValues), sepiaRed);
    assert sepiaRed[0] == 0.393 && sepiaRed[1] == 0.349 && sepiaRed[2] == 0.272 && sepiaRed[3] == 1.0 && sepiaRed[4] == 1.0;
    assert Apply(FromSvg(FullInverseValues), sepiaRed)[0]
      == 2.023554 * 0.393 - 1.621092 * 0.349 - 0.402462 * 0.272;
  }
}
