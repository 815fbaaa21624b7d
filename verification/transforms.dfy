/**
 The affine-transform helpers of boxes/vectors.py: a 2x3 matrix maps a point
 `v` to `m * (v.x, v.y, 1)`. Matrices are sequences of rows, as the nested
 lists of the source are. The trigonometric values of `rotm` are taken as
 parameters (`c` for the cosine, `s` for the sine of the angle).
 */
module Transforms {

  import opened Vectors

  type Matrix = seq<seq<real>>

  /** `m` has the two rows of at least three entries that `vtransl` unpacks and indexes. */
  predicate IsAffine(m: Matrix) {
    |m| == 2 && |m[0]| >= 3 && |m[1]| >= 3
  }

  /**
   rotm: the rotation by an angle whose cosine is `c` and sine is `s`, as an
   affine matrix without translation.
   */
  function Rotation(c: real, s: real): (m: Matrix)
    ensures IsAffine(m) && |m[0]| == 3 && |m[1]| == 3
  {
    [[c, -s, 0.0], [s, c, 0.0]]
  }

  /** vtransl: the affine image of `v`, its linear image moved by the third column of `m`. */
  function Transform(v: Point, m: Matrix): (r: Point)
    requires IsAffine(m)
    ensures r == Add(Linear(v, m), Point(m[0][2], m[1][2]))
  {
    Point(m[0][0] * v.x + m[0][1] * v.y + m[0][2], m[1][0] * v.x + m[1][1] * v.y + m[1][2])
  }

  /** The image of `v` under the linear part (the leading 2x2 block) of `m`. */
  function Linear(v: Point, m: Matrix): (r: Point)
    requires |m| >= 2 && |m[0]| >= 2 && |m[1]| >= 2
  {
    Point(m[0][0] * v.x + m[0][1] * v.y, m[1][0] * v.x + m[1][1] * v.y)
  }

  /**
   The inputs on which mmul runs without an IndexError: `m0` has a first row,
   every row of `m0` is at least as long as the first one, and when there is
   a column to compute, `m1` has at least `|m0|` rows of at least `|m0|`
   entries each.
   */
  predicate CanMultiply(m0: Matrix, m1: Matrix) {
    && |m0| > 0
    && (forall k :: 0 <= k < |m0| ==> |m0[k]| >= |m0[0]|)
    && (|m0[0]| > 0 ==> |m1| >= |m0| && forall j :: 0 <= j < |m0| ==> |m1[j]| >= |m0|)
  }

  /** The first `n` terms of the sum mmul accumulates into `result[j][i]`. */
  function ColumnSum(m0: Matrix, m1: Matrix, j: nat, i: nat, n: nat): (sum: real)
    requires CanMultiply(m0, m1) && j < |m0| && i < |m0[0]| && n <= |m0|
  {
    if n == 0 then 0.0 else ColumnSum(m0, m1, j, i, n - 1) + m0[n - 1][i] * m1[j][n - 1]
  }

  /**
   The product mmul computes: as many rows as `m0`, as many columns as the
   first row of `m0`, and entry `(j, i)` the sum over `k` of
   `m0[k][i] * m1[j][k]`. Columns of `m1` at index `|m0|` and beyond, such as
   the translation column of a 2x3 matrix, take no part.
   */
  function MatMul(m0: Matrix, m1: Matrix): (r: Matrix)
    requires CanMultiply(m0, m1)
    ensures |r| == |m0| && forall j :: 0 <= j < |r| ==> |r[j]| == |m0[0]|
  {
    seq(|m0|, j requires 0 <= j < |m0| =>
      seq(|m0[0]|, i requires 0 <= i < |m0[0]| => ColumnSum(m0, m1, j, i, |m0|)))
  }

  /** The value the entry `(jj, ii)` has once mmul has finished column `i` up to row `j`. */
  function Expected(m0: Matrix, m1: Matrix, i: nat, j: nat, jj: nat, ii: nat): (e: real)
    requires CanMultiply(m0, m1) && jj < |m0| && ii < |m0[0]|
  {
    if ii < i || (ii == i && jj < j) then ColumnSum(m0, m1, jj, ii, |m0|) else 0.0
  }

  /** `r` has the shape of the product of `m0` and `m1`. */
  predicate Shaped(r: Matrix, m0: Matrix) {
    |m0| > 0 && |r| == |m0| && forall jj :: 0 <= jj < |r| ==> |r[jj]| == |m0[0]|
  }

  /** Every entry of `r` holds the value it has once mmul finished column `i` up to row `j`. */
  predicate Done(r: Matrix, m0: Matrix, m1: Matrix, i: nat, j: nat)
    requires CanMultiply(m0, m1) && Shaped(r, m0)
  {
    forall jj, ii :: 0 <= jj < |m0| && 0 <= ii < |m0[0]| ==> r[jj][ii] == Expected(m0, m1, i, j, jj, ii)
  }

  /** Every entry of `r` other than `(j, i)` holds its expected value. */
  predicate OthersDone(r: Matrix, m0: Matrix, m1: Matrix, i: nat, j: nat)
    requires CanMultiply(m0, m1) && Shaped(r, m0)
  {
    forall jj, ii :: 0 <= jj < |m0| && 0 <= ii < |m0[0]| && (jj != j || ii != i) ==>
      r[jj][ii] == Expected(m0, m1, i, j, jj, ii)
  }

  /** mmul, with the loops of the source in the same order. */
  method MMul(m0: Matrix, m1: Matrix) returns (result: Matrix)
    requires CanMultiply(m0, m1)
    ensures result == MatMul(m0, m1)
  {
    var rows := |m0|;
    var cols := |m0[0]|;
    result := seq(rows, _ => seq(cols, _ => 0.0));
    for i := 0 to cols
      invariant Shaped(result, m0)
      invariant Done(result, m0, m1, i, 0)
    {
      for j := 0 to rows
        invariant Shaped(result, m0)
        invariant Done(result, m0, m1, i, j)
      {
        for k := 0 to rows
          invariant Shaped(result, m0)
          invariant OthersDone(result, m0, m1, i, j)
          invariant result[j][i] == ColumnSum(m0, m1, j, i, k)
        {
          result := result[j := result[j][i := result[j][i] + m0[k][i] * m1[j][k]]];
        }
      }
    }
    forall jj | 0 <= jj < rows
      ensures result[jj] == MatMul(m0, m1)[jj]
    {
    }
  }

  /**
   For an affine `m0`, the product applies `m0` first and then only the
   linear part of `m1`: the translation column of `m1` is never read.
   */
  lemma MatMulComposes(m0: Matrix, m1: Matrix, v: Point)
    requires IsAffine(m0) && |m0[1]| >= |m0[0]|
    requires |m1| >= 2 && |m1[0]| >= 2 && |m1[1]| >= 2
    ensures CanMultiply(m0, m1) && IsAffine(MatMul(m0, m1))
    ensures Transform(v, MatMul(m0, m1)) == Linear(Transform(v, m0), m1)
  {
    TwoRowEntries(m0, m1);
    ComposeRowOf(m0, m1, v, 0);
    ComposeRowOf(m0, m1, v, 1);
    hide MatMul, ColumnSum;
  }

  /** Row `j` of the product, applied to `(v.x, v.y, 1)`, is row `j` of `m1` applied to the image of `v` under `m0`. */
  lemma ComposeRowOf(m0: Matrix, m1: Matrix, v: Point, j: nat)
    requires IsAffine(m0) && |m0[1]| >= |m0[0]|
    requires |m1| >= 2 && |m1[0]| >= 2 && |m1[1]| >= 2 && j < 2
    ensures CanMultiply(m0, m1)
    ensures var r := MatMul(m0, m1); var t := Transform(v, m0);
      |r[j]| >= 3 && r[j][0] * v.x + r[j][1] * v.y + r[j][2] == m1[j][0] * t.x + m1[j][1] * t.y
  {
    TwoRowEntries(m0, m1);
    var r := MatMul(m0, m1);
    var t := Transform(v, m0);
    assert t.x == m0[0][0] * v.x + m0[0][1] * v.y + m0[0][2];
    assert t.y == m0[1][0] * v.x + m0[1][1] * v.y + m0[1][2];
    assert r[j][0] == m0[0][0] * m1[j][0] + m0[1][0] * m1[j][1];
    assert r[j][1] == m0[0][1] * m1[j][0] + m0[1][1] * m1[j][1];
    assert r[j][2] == m0[0][2] * m1[j][0] + m0[1][2] * m1[j][1];
    hide MatMul, ColumnSum, Transform;
    ComposeRow(m0[0][0], m0[0][1], m0[0][2], m0[1][0], m0[1][1], m0[1][2], m1[j][0], m1[j][1], v.x, v.y,
               r[j][0], r[j][1], r[j][2], t.x, t.y);
  }

  /**
   One row `(e0, e1, e2)` of the product applied to `(x, y, 1)` equals the
   row `(u, w)` of the second factor applied to the image `(tx, ty)` of
   `(x, y)` under the rows `p` and `q` of the first factor.
   */
  lemma ComposeRow(p0: real, p1: real, p2: real, q0: real, q1: real, q2: real, u: real, w: real, x: real, y: real,
                   e0: real, e1: real, e2: real, tx: real, ty: real)
    requires e0 == p0 * u + q0 * w && e1 == p1 * u + q1 * w && e2 == p2 * u + q2 * w
    requires tx == p0 * x + p1 * y + p2 && ty == q0 * x + q1 * y + q2
    ensures e0 * x + e1 * y + e2 == u * tx + w * ty
  {
  }

  /**
   When `m1` has no translation, multiplying and then transforming is the
   same as transforming by `m0` and then by `m1`.
   */
  lemma MatMulChains(m0: Matrix, m1: Matrix, v: Point)
    requires IsAffine(m0) && |m0[1]| >= |m0[0]|
    requires IsAffine(m1) && m1[0][2] == 0.0 && m1[1][2] == 0.0
    ensures CanMultiply(m0, m1)
    ensures Transform(v, MatMul(m0, m1)) == Transform(Transform(v, m0), m1)
  {
    MatMulComposes(m0, m1, v);
  }

  /**
   A pure translation as the second factor leaves the first one unchanged:
   mmul drops the translation of `m1` entirely.
   */
  lemma MatMulDropsTranslation(m0: Matrix, tx: real, ty: real)
    requires IsAffine(m0) && |m0[0]| == 3 && |m0[1]| == 3
    ensures CanMultiply(m0, [[1.0, 0.0, tx], [0.0, 1.0, ty]])
    ensures MatMul(m0, [[1.0, 0.0, tx], [0.0, 1.0, ty]]) == m0
  {
    var m1 := [[1.0, 0.0, tx], [0.0, 1.0, ty]];
    var r := MatMul(m0, m1);
    forall j, i | 0 <= j < 2 && 0 <= i < 3
      ensures r[j][i] == m0[j][i]
    {
      assert ColumnSum(m0, m1, j, i, 1) == m0[0][i] * m1[j][0];
    }
    assert r[0] == m0[0] && r[1] == m0[1];
  }

  /** Multiplying two rotations adds their angles (the addition formulas for cosine and sine). */
  lemma RotationCompose(c1: real, s1: real, c2: real, s2: real)
    ensures CanMultiply(Rotation(c1, s1), Rotation(c2, s2))
    ensures MatMul(Rotation(c1, s1), Rotation(c2, s2)) == Rotation(c1 * c2 - s1 * s2, s1 * c2 + c1 * s2)
  {
    var m0 := Rotation(c1, s1);
    var m1 := Rotation(c2, s2);
    var r := MatMul(m0, m1);
    var e := Rotation(c1 * c2 - s1 * s2, s1 * c2 + c1 * s2);
    TwoRowEntries(m0, m1);
    AngleSum(c1, s1, c2, s2);
    hide MatMul, ColumnSum;
    assert r[0][0] == e[0][0] && r[0][1] == e[0][1] && r[0][2] == e[0][2];
    assert r[1][0] == e[1][0] && r[1][1] == e[1][1] && r[1][2] == e[1][2];
    assert r[0] == e[0] && r[1] == e[1];
  }

  /** The six entries of the product of two 2x3 matrices. */
  lemma TwoRowEntries(m0: Matrix, m1: Matrix)
    requires IsAffine(m0) && |m0[1]| >= |m0[0]|
    requires |m1| >= 2 && |m1[0]| >= 2 && |m1[1]| >= 2
    ensures CanMultiply(m0, m1)
    ensures forall j, i :: 0 <= j < 2 && 0 <= i < 3 ==>
      MatMul(m0, m1)[j][i] == m0[0][i] * m1[j][0] + m0[1][i] * m1[j][1]
  {
    forall j, i | 0 <= j < 2 && 0 <= i < 3
      ensures MatMul(m0, m1)[j][i] == m0[0][i] * m1[j][0] + m0[1][i] * m1[j][1]
    {
      TwoRowEntry(m0, m1, j, i);
    }
  }

  /** With two rows in `m0`, an entry of the product is a sum of two products. */
  lemma TwoRowEntry(m0: Matrix, m1: Matrix, j: nat, i: nat)
    requires CanMultiply(m0, m1) && |m0| == 2 && j < 2 && i < |m0[0]|
    ensures MatMul(m0, m1)[j][i] == m0[0][i] * m1[j][0] + m0[1][i] * m1[j][1]
  {
    assert ColumnSum(m0, m1, j, i, 1) == m0[0][i] * m1[j][0];
  }

  /** The entries of the product of two rotation matrices, regrouped. */
  lemma AngleSum(c1: real, s1: real, c2: real, s2: real)
    ensures c1 * c2 + s1 * -s2 == c1 * c2 - s1 * s2
    ensures -s1 * c2 + c1 * -s2 == -(s1 * c2 + c1 * s2)
    ensures c1 * s2 + s1 * c2 == s1 * c2 + c1 * s2
    ensures -s1 * s2 + c1 * c2 == c1 * c2 - s1 * s2
    ensures 0.0 * c2 + 0.0 * s2 == 0.0 && 0.0 * -s2 + 0.0 * c2 == 0.0
  {
  }

  /** A rotation (cosine and sine on the unit circle) preserves dot products, hence lengths and angles. */
  lemma RotationPreservesDot(c: real, s: real, v: Point, w: Point)
    requires c * c + s * s == 1.0
    ensures Dot(Transform(v, Rotation(c, s)), Transform(w, Rotation(c, s))) == Dot(v, w)
  {
    RotatedDot(c, s, v.x, v.y, w.x, w.y);
  }

  lemma RotatedDot(c: real, s: real, x: real, y: real, u: real, t: real)
    ensures (c * x - s * y) * (c * u - s * t) + (s * x + c * y) * (s * u + c * t) == (c * c + s * s) * (x * u + y * t)
  {
  }

  /** The rotation by a quarter turn is vorthogonal; the rotation by zero is the identity. */
  lemma RotationSpecialAngles(v: Point)
    ensures Transform(v, Rotation(0.0, 1.0)) == Orthogonal(v)
    ensures Transform(v, Rotation(1.0, 0.0)) == v
    ensures Transform(v, Rotation(-1.0, 0.0)) == Scale(v, -1.0)
  {
  }
}
