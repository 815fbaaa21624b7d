# boxes/vectors.py in Dafny

A model of the 2D geometry helpers of boxes.py (boxes/vectors.py) over exact
reals, with proofs of what the helpers promise. The project covers:

- the vector toolkit: `normalize`, `vlength`, `vclip`, `vdiff`, `vadd`,
  `vorthogonal`, `vscalmul` and `dotproduct`;
- the affine helpers `rotm`, `vtransl` and `mmul`;
- `kerf`, the miter offset used to compensate the kerf of a laser cut. Each
  point moves so that its edges shift by `-k` along their left-hand normals
  (the quarter turn of the edge direction, counter-clockwise). For a
  counter-clockwise outline and `k > 0` that grows the outline; for a
  clockwise one it shrinks it. The call fails with `ZeroDivisionError` when
  a point repeats its predecessor or the polyline turns straight back.

Files:

- `vectors.dfy`: module `Results` (a `ZeroDivisionError` outcome) and module
  `Vectors`, the toolkit.
- `transforms.dfy`: module `Transforms`. Matrices are sequences of rows.
  `rotm` takes the cosine and sine of its angle as parameters `c` and `s`.
  `mmul` is modelled twice: as the closed-form `MatMul` and as the
  triple-loop method `MMul`, which is proved to compute it.
- `kerf.dfy`: module `Kerf`. It models the Python wrap-around indexing
  `points[i - 1]` and `(i + 1) % lp`, the rule for the first and last point
  of an open polyline, and the division by `cos_alpha`. That division raises
  `ZeroDivisionError` in Python, so `Kerf` returns a `Result`.

Square roots: Dafny's reals cannot show that every non-negative real has a
root. So `Sqrt(x)` is the non-negative root where one exists (0 otherwise),
defined by choice. Facts that need the root of a value that is not a literal
square carry a `HasRoot(..)` hypothesis. Roots of squares are proved.

## Model

| member | source | states |
|---|---|---|
| `Vectors.Sqrt` | boxes/vectors.py:31 | `x ** 0.5` is non-negative, and squares back to `x` whenever a root exists |
| `Vectors.SqrtOfSquare` | boxes/vectors.py:31 | the root of `y * y` exists and is `y` for `y >= 0`: the root is unique |
| `Vectors.Length` | boxes/vectors.py:37-38 | vlength is never negative |
| `Vectors.LengthSquared` | boxes/vectors.py:37-38 | the squared length is the dot product of the vector with itself, and the length is zero exactly for the zero vector |
| `Vectors.Normalize` | boxes/vectors.py:29-34 | normalize of the zero vector is `(0, 0)`, with no failure |
| `Vectors.NormalizeIsUnit` | boxes/vectors.py:29-34 | normalize of a nonzero vector has dot product 1 with itself and points the same way as the input: perpendicular to its quarter turn, positive component along it |
| `Vectors.NormalizeUnitVector` | boxes/vectors.py:29-34 | normalize leaves a unit vector unchanged |
| `Vectors.NormalizeScaledUnit` | boxes/vectors.py:29-34 | normalize undoes a positive stretch of a unit vector |
| `Vectors.NormalizeNegate` | boxes/vectors.py:29-34 | normalize commutes with reversing the vector |
| `Vectors.LengthNegate` | boxes/vectors.py:37-38 | reversing a vector keeps its length |
| `Vectors.CancelLength` | boxes/vectors.py:37-38 | a vector added to its reverse is the zero vector, of length zero |
| `Vectors.Clip` | boxes/vectors.py:41-45 | vclip returns `v` itself when `v` is no longer than the bound; it fails exactly when `v` has length zero and the bound is negative |
| `Vectors.ClipLength` | boxes/vectors.py:41-45 | with a non-negative bound, vclip succeeds with a vector in the direction of `v` whose length is the smaller of the length of `v` and the bound |
| `Vectors.ClipScale` | boxes/vectors.py:43-44 | scaling by `length / vlength(v)` gives a vector of exactly `length` in the direction of `v` |
| `Vectors.ClipFailsOnlyOnZero` | boxes/vectors.py:41-45 | the only failing input of vclip is the zero vector with a negative bound |
| `Vectors.Diff` | boxes/vectors.py:48-50 | moving `p1` by vdiff(p1, p2) arrives at `p2` |
| `Vectors.Add` | boxes/vectors.py:53-55 | vadd with the zero vector on either side returns the other argument |
| `Vectors.Orthogonal` | boxes/vectors.py:58-60 | vorthogonal gives a vector perpendicular to its input |
| `Vectors.Scale` | boxes/vectors.py:63-65 | vscalmul by 1 returns the vector itself and by 0 the zero vector |
| `Vectors.Dot` | boxes/vectors.py:68-70 | the dot product with the zero vector, on either side, is zero |
| `Vectors.CancelToZero` | boxes/vectors.py:53-65 | a vector added to vscalmul of itself by -1, in either order, is the zero vector |
| `Vectors.AddDiffRoundTrip` | boxes/vectors.py:48-55 | vadd and vdiff are inverse in both orders, and vdiff is unchanged when both points move by the same vector |
| `Vectors.DotSelf` | boxes/vectors.py:68-70 | the dot product of a vector with itself is non-negative and zero only for the zero vector |
| `Vectors.OrthogonalIsPerpendicular` | boxes/vectors.py:58-70 | vorthogonal gives a vector perpendicular to the input and of the same squared length |
| `Vectors.OrthogonalTwice` | boxes/vectors.py:58-65 | two quarter turns give `vscalmul(v, -1)` |
| `Vectors.ScaleDot` | boxes/vectors.py:63-70 | vscalmul by `a` multiplies the squared length by `a * a` and the component along `v` by `a`, and keeps the vector perpendicular to the quarter turn of `v` |
| `Vectors.ScaleCommutes` | boxes/vectors.py:63-65 | two scalings can be applied in either order |
| `Transforms.Rotation` | boxes/vectors.py:87-90 | rotm builds a 2x3 matrix, which vtransl can apply |
| `Transforms.RotationSpecialAngles` | boxes/vectors.py:87-96 | the rotation by a quarter turn is vorthogonal, by zero the identity, by a half turn the reversal |
| `Transforms.RotationPreservesDot` | boxes/vectors.py:87-96 | for a cosine and sine on the unit circle, rotating both vectors keeps their dot product, so lengths and angles are kept |
| `Transforms.RotationCompose` | boxes/vectors.py:87-105 | mmul of two rotations is the rotation by the sum of the angles, by the addition formulas |
| `Transforms.Transform` | boxes/vectors.py:93-96 | vtransl applies the left 2x2 block of the matrix and then adds its third column as a translation |
| `Transforms.MatMul` | boxes/vectors.py:99-105 | the product has `len(m0)` rows of `len(m0[0])` entries |
| `Transforms.MMul` | boxes/vectors.py:99-105 | the triple loop of mmul, accumulating into a zero matrix, computes entry `(j, i)` as the sum over `k < len(m0)` of `m0[k][i] * m1[j][k]` |
| `Transforms.MatMulComposes` | boxes/vectors.py:93-105 | vtransl by mmul(m0, m1) is the linear part of `m1` applied to vtransl by `m0`; the translation of `m1` is never read |
| `Transforms.ComposeRowOf` | boxes/vectors.py:93-105 | row `j` of mmul(m0, m1) applied to `(x, y, 1)` equals row `j` of `m1` applied to the image of `(x, y)` under vtransl by `m0` |
| `Transforms.MatMulChains` | boxes/vectors.py:93-105 | when `m1` has no translation, as for rotm, vtransl by mmul(m0, m1) is vtransl by `m0` and then by `m1` |
| `Transforms.MatMulDropsTranslation` | boxes/vectors.py:99-105 | a pure translation as second factor leaves `m0` unchanged |
| `Kerf.Prev` | boxes/vectors.py:117 | the index `points[i - 1]` reads is a valid index |
| `Kerf.Next` | boxes/vectors.py:118 | the index `(i + 1) % lp` is a valid index |
| `Kerf.NeighboursAreModular` | boxes/vectors.py:117-118 | the neighbour indices are Python's: `i - 1` modulo `lp`, so `-1` reads the last point, and `(i + 1) % lp`, so the first point follows the last |
| `Kerf.PrevNextInverse` | boxes/vectors.py:117-118 | the predecessor of the successor, and the successor of the predecessor, of a point is the point itself |
| `Kerf.EdgeNormal` | boxes/vectors.py:117-118 | an edge between two equal points has the zero normal: normalize does not fail on the zero vector |
| `Kerf.ReversedEdgeNormal` | boxes/vectors.py:117-118 | reversing an edge reverses its normal |
| `Kerf.EdgeNormalIsUnit` | boxes/vectors.py:117-118 | the normal of an edge between distinct points is a unit vector perpendicular to the edge |
| `Kerf.EdgeNormalZeroIff` | boxes/vectors.py:117-118 | an edge normal is a unit vector or zero, and zero exactly when the two points are equal |
| `Kerf.CornerNormals` | boxes/vectors.py:117-124 | on a closed polyline and at an interior point, `v1` is the normal of the incoming edge and `v2` that of the outgoing edge; an open polyline's first point uses its outgoing normal for both, its last point its incoming normal for both |
| `Kerf.OpenEndNormals` | boxes/vectors.py:117-124 | on an open polyline of at least two points, both normals of the first point are those of the first edge, and both of the last point are those of the last edge |
| `Kerf.LonePointCorner` | boxes/vectors.py:117-124 | a single point, closed or open, has the zero vector for both normals, since its only edge joins it to itself |
| `Kerf.Offset` | boxes/vectors.py:115-129 | a moved point has component exactly `-k` along the incoming normal `v1`; when `v1` is zero the point fails |
| `Kerf.VertexOffset` | boxes/vectors.py:125-129 | a successful move has component exactly `-k` along the incoming normal: the incoming edge is shifted by the kerf |
| `Kerf.VertexFailsIff` | boxes/vectors.py:125-129 | for unit or zero normals, `-k / cos_alpha` divides by zero exactly when the incoming normal is zero or the two normals cancel |
| `Kerf.MiterClosedForm` | boxes/vectors.py:125-129 | where it succeeds, the moved point is `p + w * (-k / (v1 . w))` for the sum `w` of the normals; no root is left |
| `Kerf.MiterBothEdges` | boxes/vectors.py:125-129 | for normals of equal length, the move also has component `-k` along the outgoing normal: both edges are shifted by the kerf |
| `Kerf.StraightOffset` | boxes/vectors.py:125-129 | with equal unit normals (`cos_alpha == 1`) the point moves by `-k` along the normal |
| `Kerf.RightAngleOffset` | boxes/vectors.py:125-129 | at a right angle the point moves by `-k` along each of the two normals |
| `Kerf.VertexZeroIncoming` | boxes/vectors.py:125-129 | a zero incoming normal always makes the division fail |
| `Kerf.VertexCancelling` | boxes/vectors.py:125-129 | normals that cancel make the division fail |
| `Kerf.OffsetCancels` | boxes/vectors.py:115-129 | a point whose two normals cancel fails |
| `Kerf.KerfFrom` | boxes/vectors.py:112-131 | the loop from point `i` on succeeds iff every remaining point does, and then holds one offset point per input point, in order |
| `Kerf.Kerf` | boxes/vectors.py:108-131 | kerf succeeds iff no point's division fails; it then returns exactly `len(points)` points, output `i` being the offset of point `i` |
| `Kerf.OffsetFailsIff` | boxes/vectors.py:115-129 | point `i` fails iff its incoming normal is zero or its two normals cancel |
| `Kerf.ClosedOffsetFailsIff` | boxes/vectors.py:115-129 | on a closed polyline, point `i` fails iff it repeats its predecessor or the polyline turns straight back at it |
| `Kerf.OffsetLocal` | boxes/vectors.py:115-129 | output `i` depends only on points `i - 1`, `i` and `i + 1`, wrapped around |
| `Kerf.KerfFailsAt` | boxes/vectors.py:115-131 | one failing point makes the whole call fail |
| `Kerf.KerfRepeatedPointFails` | boxes/vectors.py:115-131 | a point equal to the next one makes kerf fail, closed or open |
| `Kerf.KerfClosingRepeatFails` | boxes/vectors.py:115-131 | on a closed polyline a last point equal to the first makes kerf fail |
| `Kerf.KerfSinglePointFails` | boxes/vectors.py:115-131 | a single point fails, closed or open, because its only edge is degenerate |
| `Kerf.ClosedSegmentCorner` | boxes/vectors.py:115-124 | on a closed polyline of two points, the first point's incoming normal is the reverse of its outgoing one, so the two cancel |
| `Kerf.KerfClosedSegmentFails` | boxes/vectors.py:115-131 | every closed polyline of two points fails, whatever the points and the kerf: it turns straight back at its first point |
| `Kerf.KerfTranslate` | boxes/vectors.py:108-131 | translating every input point by `t` translates every output point by `t` and changes no failure |
| `Kerf.OffsetTranslate` | boxes/vectors.py:115-129 | the offset of a translated polyline is the translated offset |
| `Kerf.KerfZeroIdentity` | boxes/vectors.py:108-131 | a kerf of zero returns the input points unchanged, wherever it succeeds |
| `Kerf.OpenFirstOffset` | boxes/vectors.py:117-129 | the first point of an open polyline moves by `-k` along the normal of its edge |
| `Kerf.OpenLastOffset` | boxes/vectors.py:117-129 | the last point of an open polyline moves by `-k` along the normal of its edge |
| `Kerf.KerfOpenSegment` | boxes/vectors.py:108-131 | the open segment from (0, 0) to (1, 0) becomes (0, -k) to (1, -k) |
| `Kerf.KerfSquare` | boxes/vectors.py:108-131 | a closed counter-clockwise square of side `s` with corner `c` becomes the square with corner `c - (k, k)` and side `s + 2k` |
| `Kerf.KerfUnitSquare` | boxes/vectors.py:108-131 | the unit square becomes the square from (-k, -k) to (1 + k, 1 + k) |
| `Kerf.KerfSquareRoundTrip` | boxes/vectors.py:108-131 | a kerf of `k` and then of `-k` gives the square back, while the grown square keeps a positive side |

## Left out

- `circlepoint` and `tangent` (boxes/vectors.py:73-84) are not modelled: they rest on `cos`, `sin`, `atan2` and `asin`.
- `rotm` takes the cosine and sine of its angle as parameters rather than computing them.
- `_setup.py` is not part of this model. It is build and packaging code.
- Floating point is not modelled. There is no rounding, signed zero, NaN or infinity. `l == 0.0` in normalize and vclip holds only for the zero vector here, not for vectors whose length underflows.
- Points are pairs. The list/tuple distinction is dropped, and so is the fact that vclip returns the same list object. Components past the second are ignored.
- Transform, MatMul and MMul require the shapes the source indexes (`IsAffine`, `CanMultiply`). Python would raise an IndexError or ValueError outside them; that error path is not modelled.
- `kerf` on an exact 180 degree turn: the code divides `-k` by an exact `0.0` and raises `ZeroDivisionError`. The model follows the code. It does not model a very large or non-finite displacement, which floating-point rounding can produce near such a turn.
- Kerf.KerfSquareRoundTrip: the round trip is proved for axis-parallel squares only, not for every polyline, and requires `HasRoot(2.0)`. Floating-point tolerance does not arise over the reals.
- Vectors.NormalizeIsUnit: requires `HasRoot` of the squared length, because the existence of square roots is not provable here.
- Vectors.LengthSquared: requires `HasRoot` of the squared length, for the same reason.
- Vectors.ClipLength: requires `HasRoot` of the squared length, for the same reason.
- Vectors.ClipScale: requires `HasRoot` of the squared length, for the same reason.
- Vectors.ClipFailsOnlyOnZero: requires `HasRoot` of the squared length, for the same reason.
- Kerf.EdgeNormalIsUnit: requires `HasRoot` of the squared edge length.
- Kerf.EdgeNormalZeroIff: requires `HasRoot` of the squared edge length.
- Kerf.VertexFailsIff: requires `HasRoot` of the squared length of the sum of the normals.
- Kerf.MiterClosedForm: requires `HasRoot` of the squared length of the sum of the normals.
- Kerf.OffsetFailsIff: requires the roots of both squared edge lengths and of the squared normal sum (`RootsAt`).
- Kerf.ClosedOffsetFailsIff: requires the same roots (`RootsAt`).
- Kerf.OpenFirstOffset: requires `HasRoot` of the squared edge length.
- Kerf.OpenLastOffset: requires `HasRoot` of the squared edge length.
- Kerf.RightAngleOffset: requires `HasRoot(2.0)`, the root of the squared length of the sum of two perpendicular unit normals.
- Kerf.KerfSquare: requires `HasRoot(2.0)`, for the same reason.
- Kerf.KerfUnitSquare: requires `HasRoot(2.0)`, for the same reason.
