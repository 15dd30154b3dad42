# Colour-matrix engine of the arcboostify content script

The modules `createMatrixFilters.js` and `createSepiaFilters.js` build SVG
`feColorMatrix` filters that recolour a page: a forward filter for the page
and a companion filter for elements that should keep their own colours. The
content script `index.js` does not import them. It applies CSS filter
functions instead, so this model describes the two modules on their own.
Together they form the colour-matrix engine modelled here:

- `ColorMatrix` (`matrix.dfy`): 5x5 homogeneous colour matrices over
  (R, G, B, A, 1). It holds the identity, the product, the sum, the action of
  a matrix on a colour, and `matrixToSVG`. That serialisation writes rows 0..3
  in row-major order as a 20-value list and drops the homogeneous row.
- `Effects` (`effects.dfy`): the constructors `brightness`, `contrast`,
  `saturation`, `hueRotate` and `tint`, and the brightness boost composed
  after the tint.
- `GaussJordan` (`gauss_jordan.dfy`): `Matrix.inverse`. It runs Gauss-Jordan
  elimination with partial pivoting on the augmented matrix [m | I]. If a
  pivot is below `1e-10` after the row swap, it falls back to the identity.
- `Pipeline` (`pipeline.dfy`): `createMatrixFilters`. It builds the combined
  matrix `boost * tint * hue * contrast * brightness * saturation` and its
  inverse, and serialises both.
- `Sepia` (`sepia.dfy`): the sepia-only filters. These are the forward list
  and the companion "inverse" list. Each blends the identity with a fixed
  block by the amount `s`.

Arithmetic is exact (`real`). `Math.cos`, `Math.sin` and `Math.sqrt(3)` cannot
be computed exactly, so the caller supplies them as a `Trig` record. The only
thing required of them is `sqrt3 > 0`, because `hueRotate` divides by it.

The correctness proof of `Inverse` carries a ghost matrix `S`. Its loop
invariant is `S * aug == [m | I]`. Every row operation on `aug` is matched by
a column operation on `S` that cancels it in the product:

- a swap of rows is matched by a swap of columns;
- dividing a row by the pivot is matched by multiplying a column by it;
- subtracting `f` times row `p` from row `k` is matched by adding `f` times
  column `k` to column `p`.

At the end `aug == [I | r]`. So `S == m`, and `m * r == I`.

When `m` is diagonal, `Inverse` also says exactly when the fallback fires:
when some diagonal entry is below `1e-10`. A diagonal matrix needs no row
swaps, and elimination leaves the other diagonal entries as they are. Under
settings with no hue shift, saturation 1 and contrast 1, the combined matrix
is diagonal. So `CreateMatrixFilters` states the fallback condition there in
terms of the per-channel scale.

The companion list is `matrixToSVG(Matrix.inverse(combinedMatrix))`
(`createMatrixFilters.js:301-303`). The tint stage scales each channel by
`1 - a' + a' * c / 255`, where `a' = intensity * (1 - 1 * 0.3)`
(`createMatrixFilters.js:204-218`).

## Model

| member | source | states |
|---|---|---|
| ColorMatrix.Identity | src/pages/Content/modules/createMatrixFilters.js:3-11 | the identity keeps alpha and the homogeneous term; `MultiplyIdentityLeft`, `MultiplyIdentityRight` and `ApplyIdentity` state that it is neutral |
| ColorMatrix.Multiply | src/pages/Content/modules/createMatrixFilters.js:13-26 | the product is 5 rows of the right operand's width, and entry (i, j) is the inner product of row i of the left operand with column j of the right one |
| ColorMatrix.Add | src/pages/Content/modules/createMatrixFilters.js:28-37 | the entrywise sum of two 5x5 matrices is 5x5; `AddCommutes` and `MultiplyDistributesOverAdd` state its algebra |
| ColorMatrix.ApplyIdentity | src/pages/Content/modules/createMatrixFilters.js:3-11 | the identity maps every colour to itself |
| ColorMatrix.MultiplyIdentityLeft | src/pages/Content/modules/createMatrixFilters.js:3-26 | `I * M == M` for every M whose five rows have one common width |
| ColorMatrix.MultiplyIdentityRight | src/pages/Content/modules/createMatrixFilters.js:3-26 | `M * I == M` for every 5x5 M |
| ColorMatrix.ApplyMultiply | src/pages/Content/modules/createMatrixFilters.js:13-26 | applying `a * b` to a colour is applying b first and then a |
| ColorMatrix.MultiplyKeepsAffine | src/pages/Content/modules/createMatrixFilters.js:13-26 | the product of two matrices with rows 3 and 4 equal to `[0,0,0,1,0]` and `[0,0,0,0,1]` has those rows too |
| ColorMatrix.MultiplyDiagonal | src/pages/Content/modules/createMatrixFilters.js:13-26 | the product of two diagonal matrices is diagonal, and its diagonal is the entrywise product of theirs |
| ColorMatrix.AddCommutes | src/pages/Content/modules/createMatrixFilters.js:28-37 | the entrywise sum is commutative |
| ColorMatrix.MultiplyDistributesOverAdd | src/pages/Content/modules/createMatrixFilters.js:13-37 | `(a + b) * c == a * c + b * c` |
| ColorMatrix.ToSvg | src/pages/Content/modules/createMatrixFilters.js:261-284 | the list has exactly 20 values, and value `5i + j` is entry (i, j) for rows 0..3 |
| ColorMatrix.FromSvgToSvg | src/pages/Content/modules/createMatrixFilters.js:261-284 | dropping row 4 loses nothing when row 4 is the homogeneous row: reading the list back gives the matrix |
| ColorMatrix.ToSvgFromSvg | src/pages/Content/modules/createMatrixFilters.js:261-284 | every 20-value list is the serialisation of the matrix it reads back as |
| Effects.Brightness | src/pages/Content/modules/createMatrixFilters.js:106-115 | keeps alpha and the homogeneous term; `ApplyBrightness` states its action |
| Effects.Contrast | src/pages/Content/modules/createMatrixFilters.js:117-127 | keeps alpha and the homogeneous term; `ApplyContrast` states its action |
| Effects.Tint | src/pages/Content/modules/createMatrixFilters.js:194-231 | keeps alpha and the homogeneous term for every tint colour and intensity; `ApplyTint` states its action |
| Effects.TintBoost | src/pages/Content/modules/createMatrixFilters.js:248-251 | keeps alpha and the homogeneous term; `ApplyTintBoost` states its action |
| Effects.Saturation | src/pages/Content/modules/createMatrixFilters.js:129-151 | keeps alpha and the offset, each RGB row sums to 1 for every v, and it is exactly the identity when `abs(v - 1) < 1e-6` |
| Effects.HueRotate | src/pages/Content/modules/createMatrixFilters.js:153-192 | keeps alpha and the offset; the RGB block is circulant and its rows and columns sum to 1 for any cos, sin and sqrt(3); it is exactly the identity when `abs(angle) < 1e-6` |
| Effects.ApplyBrightness | src/pages/Content/modules/createMatrixFilters.js:106-115 | each channel is scaled by v; alpha is unchanged |
| Effects.ApplyContrast | src/pages/Content/modules/createMatrixFilters.js:117-127 | each channel x becomes `v * x + (1 - v) / 2`; alpha is unchanged |
| Effects.ApplySaturation | src/pages/Content/modules/createMatrixFilters.js:136-150 | outside the 1e-6 window, each channel becomes `v * x + (1 - v) * mean(r, g, b)` |
| Effects.ApplyTint | src/pages/Content/modules/createMatrixFilters.js:194-231 | each channel is scaled by its own gain `1 - 0.7a + 0.7a * c / 255`; channels never mix; alpha is unchanged |
| Effects.ApplyTintBoost | src/pages/Content/modules/createMatrixFilters.js:248-251 | the boost scales every channel by `1 + a * 0.5` |
| Effects.BrightnessOneIsIdentity | src/pages/Content/modules/createMatrixFilters.js:106-115 | `brightness(1)` is the identity |
| Effects.ContrastOneIsIdentity | src/pages/Content/modules/createMatrixFilters.js:117-127 | `contrast(1)` is the identity |
| Effects.SaturationOneIsIdentity | src/pages/Content/modules/createMatrixFilters.js:129-134 | `saturation(1)` is the identity |
| Effects.HueRotateZeroIsIdentity | src/pages/Content/modules/createMatrixFilters.js:153-159 | `hueRotate(0)` is the identity |
| Effects.HueRotateFullTurnIsIdentity | src/pages/Content/modules/createMatrixFilters.js:161-191 | past the short circuit, cos 1 and sin 0 also give the identity |
| Effects.TintZeroIntensityIsIdentity | src/pages/Content/modules/createMatrixFilters.js:194-231 | intensity 0 makes both the tint and its boost the identity, whatever the tint colour |
| Effects.SaturationKeepsNeutral | src/pages/Content/modules/createMatrixFilters.js:136-150 | for every v, a grey is mapped to itself |
| Effects.HueRotateKeepsNeutral | src/pages/Content/modules/createMatrixFilters.js:165-191 | for every angle and every trigonometric stand-in, a grey is mapped to itself |
| Effects.BrightnessKeepsNeutrals | src/pages/Content/modules/createMatrixFilters.js:106-115 | a grey stays a grey with the same alpha |
| Effects.ContrastKeepsNeutrals | src/pages/Content/modules/createMatrixFilters.js:117-127 | a grey stays a grey with the same alpha |
| Effects.ContrastFixesMidGrey | src/pages/Content/modules/createMatrixFilters.js:117-127 | 0.5 grey is a fixed point of contrast for every v |
| Effects.SaturationZeroAverages | src/pages/Content/modules/createMatrixFilters.js:136-150 | `saturation(0)` has 1/3 in all nine RGB entries |
| Effects.TintGainBounds | src/pages/Content/modules/createMatrixFilters.js:202-218 | with a in 0..1 and a channel in 0..255, the tint gain lies in 0.3..1, and a 255 channel has gain 1 |
| Effects.ContrastBrightnessDoNotCommute | src/pages/Content/modules/createMatrixFilters.js:253-258 | `contrast(1.2) * brightness(1.2)` differs from the reverse order, so the fixed order matters |
| GaussJordan.SwapRows | src/pages/Content/modules/createMatrixFilters.js:65-68 | rows p and q trade places and every other row is unchanged |
| GaussJordan.DivideRow | src/pages/Content/modules/createMatrixFilters.js:76-80 | every entry of row p is divided by c and every other row is unchanged |
| GaussJordan.SubtractRow | src/pages/Content/modules/createMatrixFilters.js:82-90 | row k loses f times row p, entry by entry, and every other row is unchanged |
| GaussJordan.SwapKeepsProduct | src/pages/Content/modules/createMatrixFilters.js:65-68 | swapping columns p and q of S cancels swapping rows p and q of the augmented matrix in the product |
| GaussJordan.DivideKeepsProduct | src/pages/Content/modules/createMatrixFilters.js:76-80 | scaling column p of S by c cancels dividing row p by c |
| GaussJordan.SubtractKeepsProduct | src/pages/Content/modules/createMatrixFilters.js:82-90 | adding f times column k of S to column p cancels subtracting f times row p from row k |
| GaussJordan.FindPivot | src/pages/Content/modules/createMatrixFilters.js:57-63 | the chosen row is in i..4; it has the largest magnitude in column i among rows i..4; it is the first such row |
| GaussJordan.EliminateColumn | src/pages/Content/modules/createMatrixFilters.js:76-90 | after dividing the pivot row and clearing the other rows, columns 0..i of the left half are identity columns, and the ghost matrix times the augmented matrix is still m augmented with I |
| GaussJordan.EliminationRound | src/pages/Content/modules/createMatrixFilters.js:56-91 | one pass of the outer loop: if the pivot after the swap is not below 1e-10, columns 0..i are cleared and the product invariant holds; for a diagonal m the pivot is small exactly when `abs(m[i][i]) < 1e-10` |
| GaussJordan.ClearedGivesInverse | src/pages/Content/modules/createMatrixFilters.js:93-102 | once the left half is the identity, the extracted right half is a right inverse of m |
| GaussJordan.Inverse | src/pages/Content/modules/createMatrixFilters.js:40-103 | the singular fallback returns exactly the identity; otherwise `m * r == I`; the all-zero matrix always takes the fallback; a diagonal m takes the fallback exactly when one of its diagonal entries is below 1e-10 |
| Pipeline.Accumulate | src/pages/Content/modules/createMatrixFilters.js:237-258 | left-multiplying affine stages onto an affine accumulator keeps alpha and the homogeneous term |
| Pipeline.AccumulateApplies | src/pages/Content/modules/createMatrixFilters.js:253-258 | the accumulated matrix acts on a colour as the stages applied one after the other, first stage first |
| Pipeline.AccumulateIdentities | src/pages/Content/modules/createMatrixFilters.js:253-258 | accumulating identity stages leaves the accumulator unchanged |
| Pipeline.CombinedMatrix | src/pages/Content/modules/createMatrixFilters.js:237-258 | the combined matrix keeps alpha and the homogeneous term |
| Pipeline.CombinedAppliesInOrder | src/pages/Content/modules/createMatrixFilters.js:242-258 | the combined matrix applies saturation, brightness, contrast, hue, tint and then `brightness(1 + 0.5a)`, in that order |
| Pipeline.NeutralSettingsGiveIdentity | src/pages/Content/modules/createMatrixFilters.js:237-258 | hue 0, contrast 1, brightness 1, saturation 1 and tint intensity 0 give the identity for any tint colour |
| Pipeline.UntintedPipelineKeepsNeutrals | src/pages/Content/modules/createMatrixFilters.js:237-258 | with tint intensity 0, every grey is mapped to a grey with the same alpha |
| Pipeline.UnmixedCombinedMatrix | src/pages/Content/modules/createMatrixFilters.js:237-258 | with hue and saturation inside their 1e-6 windows and contrast 1, the combined matrix is `boost * (tint * brightness)` |
| Pipeline.UnmixedSettingsAreDiagonal | src/pages/Content/modules/createMatrixFilters.js:194-258 | under those settings the combined matrix is diagonal, and channel c is scaled by `(1 + 0.5a) * tintGain(c) * brightness` |
| Pipeline.UnmixedSmallDiagonal | src/pages/Content/modules/createMatrixFilters.js:70-74 | under those settings a diagonal entry is below 1e-10 exactly when one channel's overall scale is |
| Pipeline.IdentityInverse | src/pages/Content/modules/createMatrixFilters.js:40-103 | the inverse of the identity, as `Inverse` promises it, is the identity and not the fallback |
| Pipeline.RightInverseIsAffine | src/pages/Content/modules/createMatrixFilters.js:93-102 | a right inverse of a matrix that keeps alpha and the offset keeps them too, so it serialises without loss |
| Pipeline.CreateMatrixFilters | src/pages/Content/modules/createMatrixFilters.js:234-305 | both lists have 20 values; the forward list reads back as the combined matrix; the inverse list is the identity on the fallback and otherwise reads back as a right inverse of the combined matrix; neutral settings never fall back and give the identity list twice; under settings that mix no channels the fallback happens exactly when some channel's overall scale is below 1e-10 |
| Pipeline.ForwardUndoesRightInverse | src/pages/Content/modules/createMatrixFilters.js:286-305 | a colour passed through a right inverse and then the forward matrix comes back unchanged, in exact arithmetic without the renderer's clamping to 0..1 |
| Sepia.SepiaValues | src/pages/Content/modules/createSepiaFilters.js:37-44 | every entry is `(1 - s) * identity + s * fullSepia`, where fullSepia is the reference full-strength sepia matrix |
| Sepia.InverseSepiaValues | src/pages/Content/modules/createSepiaFilters.js:61-76 | every entry is `(1 - s) * identity + s * fullInverse`, where fullInverse is `fullInverseMatrix` with the alpha row added |
| Sepia.NoSepiaIsIdentity | src/pages/Content/modules/createSepiaFilters.js:39-76 | at s = 0 both lists are the 4x5 identity, which is `matrixToSVG` of the 5x5 identity |
| Sepia.FullSepiaIsStandard | src/pages/Content/modules/createSepiaFilters.js:22-76 | at s = 1 the forward list is the standard sepia matrix and the inverse list is the declared full inverse |
| Sepia.FullAmountBlocks | src/pages/Content/modules/createSepiaFilters.js:63-76 | at s = 1 the inverse RGB block equals `fullInverseMatrix` entry for entry, and the forward block is `0.393 0.769 0.189 / 0.349 0.686 0.168 / 0.272 0.534 0.131` |
| Sepia.SepiaKeepsAlphaAndOffsets | src/pages/Content/modules/createSepiaFilters.js:39-76 | for every s, both lists end in the alpha row `[0,0,0,1,0]` and have 0 at offsets 4, 9 and 14 |
| Sepia.DeclaredInverseDoesNotUndoSepia | src/pages/Content/modules/createSepiaFilters.js:57-76 | at s = 1, pure red passed through sepia and then the declared inverse has a red channel of 0.12002595, not 1 |

## Left out

- DOM construction is not modelled. This covers `createElementNS`, `innerHTML`, `setAttribute`, `appendChild` and the `join(' ')` strings in both filter modules. Only the numeric payload is modelled.
- The `console.warn` on a singular pivot is a logging side effect. It is modelled as the `singular` flag that `Inverse` and `CreateMatrixFilters` return.
- Floating point is not modelled. Parameters are exact reals, and the `Number(...)` coercions are dropped. The `1e-6` windows in `saturation` and `hueRotate` (`createMatrixFilters.js:132`, `:157`) and the `1e-10` pivot test are kept as exact comparisons.
- Clamping is not modelled. The renderer clamps every channel to [0, 1] after each `feColorMatrix`, so an inverse followed by the forward filter gives the original colour only while no channel leaves that range. The model applies matrices to unclamped reals.
- A domain state without a `tint` field is not modelled. `Matrix.tint` destructures `tint` (`createMatrixFilters.js:196`), and the popup's `initialState` has no `tint` (`Popup.jsx:9-18`), so the JavaScript throws a TypeError there. `EffectParams` always carries a tint.
- `Math.cos`, `Math.sin` and `Math.sqrt(3)` are caller-supplied values. `hueRotate(360) == identity` is a fact about cosine and sine and is not proved. Only the case cos = 1, sin = 0 is proved.
- GaussJordan.Inverse: for a matrix that is not diagonal, the contract does not say when the fallback fires. It says so exactly for diagonal matrices, and says the all-zero matrix always falls back.
- Pipeline.CreateMatrixFilters: the fallback condition is stated only for neutral settings and for settings that mix no channels. Otherwise it depends on the pivots that row swaps produce, and is not characterised.
- GaussJordan.Inverse: only `m * r == I` is proved. The left inverse `r * m == I` is not stated.
- The declared sepia inverse `fullInverseMatrix` does not invert the sepia block: the sepia block is nearly singular (determinant about 1.2e-7). Only the interpolation facts are stated, and `Sepia.DeclaredInverseDoesNotUndoSepia` exhibits the gap.
- The CSS filter in `src/pages/Content/index.js` is not modelled. That file writes `filter:` strings, a `<style>` element and a storage listener. Its image filter negates the hue and takes the reciprocals `1/contrast`, `1/brightness` and `1/saturation` (`index.js:15-22`); it uses no matrix.
- The popup UI is not modelled (`src/pages/Popup/Popup.jsx`, `Checkbox.jsx`, `Range.jsx`). It is React and browser storage.
