/**
 The failure a Python arithmetic expression can raise in the modelled code:
 a division by zero. Operations that divide return a `Result` instead of a
 value so that the failing inputs are part of their contract.
 */
module Results {

  datatype Result<+T> = Ok(value: T) | ZeroDivisionError
}

/**
 The 2D vector toolkit of boxes/vectors.py over exact reals. A point and a
 vector share one representation, as they do in the source.

 Dafny's real arithmetic cannot prove that every non-negative real has a
 square root, so `Sqrt` is defined as "the non-negative root, when one
 exists". Facts that need the root of a value that is not given as a square
 carry the hypothesis `HasRoot(..)` for that value; roots of squares
 (`Sqrt(y * y) == y`) are proved outright.
 */
module Vectors {

  import opened Results

  datatype Point = Point(x: real, y: real)

  const Zero := Point(0.0, 0.0)

  /** `r` is the non-negative square root of `x`. */
  ghost predicate IsRoot(r: real, x: real) {
    0.0 <= r && r * r == x
  }

  ghost predicate HasRoot(x: real) {
    exists r: real :: IsRoot(r, x)
  }

  /** The non-negative square root of `x` (Python's `x ** 0.5`), where it exists. */
  ghost function Sqrt(x: real): (r: real)
    ensures 0.0 <= r
    ensures HasRoot(x) ==> r * r == x
  {
    if HasRoot(x) then
      var r: real :| IsRoot(r, x); r
    else
      0.0
  }

  /** A non-negative root is unique, so the root of a square is its base. */
  lemma SqrtOfSquare(y: real)
    requires 0.0 <= y
    ensures HasRoot(y * y)
    ensures Sqrt(y * y) == y
  {
    assert IsRoot(y, y * y);
    SquareInjective(Sqrt(y * y), y);
  }

  lemma SquareInjective(a: real, b: real)
    requires 0.0 <= a && 0.0 <= b && a * a == b * b
    ensures a == b
  {
    if a < b {
      SquareStrictlyMonotone(a, b);
    } else if b < a {
      SquareStrictlyMonotone(b, a);
    }
  }

  lemma SquareStrictlyMonotone(a: real, b: real)
    requires 0.0 <= a < b
    ensures a * a < b * b
  {
    DifferenceOfSquares(a, b);
    PositiveProduct(b - a, b + a);
  }

  lemma DifferenceOfSquares(a: real, b: real)
    ensures (b - a) * (b + a) == b * b - a * a
  {
  }

  lemma ProductSwap(a: real, b: real, c: real)
    ensures b * (a * c) == a * (b * c)
  {
  }

  lemma NonNegativeProduct(a: real, b: real)
    requires 0.0 <= a && 0.0 <= b
    ensures 0.0 <= a * b
  {
  }

  lemma PositiveProduct(a: real, b: real)
    requires 0.0 < a && 0.0 < b
    ensures 0.0 < a * b
  {
  }

  lemma SquarePositive(a: real)
    requires a != 0.0
    ensures 0.0 < a * a
  {
  }

  lemma SquareZero(a: real)
    requires a * a == 0.0
    ensures a == 0.0
  {
    if a != 0.0 {
      InverseCancels(a, a);
      assert false;
    }
  }

  lemma ZeroProduct(a: real, b: real)
    requires a == 0.0
    ensures a * b == 0.0
  {
  }

  lemma InverseCancels(a: real, b: real)
    requires a != 0.0
    ensures (b * a) * (1.0 / a) == b
  {
  }

  lemma SquareNonNegative(a: real)
    ensures 0.0 <= a * a
  {
  }

  /** vdiff: the vector from `p1` to `p2`, the step vadd takes from `p1` to reach `p2`. */
  function Diff(p1: Point, p2: Point): (r: Point)
    ensures Add(p1, r) == p2
  {
    Point(p2.x - p1.x, p2.y - p1.y)
  }

  /** vadd: the zero vector is neutral on either side. */
  function Add(v1: Point, v2: Point): (r: Point)
    ensures v2 == Zero ==> r == v1
    ensures v1 == Zero ==> r == v2
  {
    Point(v1.x + v2.x, v1.y + v2.y)
  }

  /** vorthogonal: `v` turned a quarter turn counter-clockwise, hence perpendicular to `v`. */
  function Orthogonal(v: Point): (r: Point)
    ensures Dot(v, r) == 0.0
  {
    Point(-v.y, v.x)
  }

  /** vscalmul: scaling by one keeps `v`, scaling by zero gives the zero vector. */
  function Scale(v: Point, a: real): (r: Point)
    ensures a == 1.0 ==> r == v
    ensures a == 0.0 ==> r == Zero
  {
    Point(a * v.x, a * v.y)
  }

  /** dotproduct: zero whenever either vector is the zero vector. */
  function Dot(v1: Point, v2: Point): (r: real)
    ensures v1 == Zero || v2 == Zero ==> r == 0.0
  {
    v1.x * v2.x + v1.y * v2.y
  }

  /** vlength: the Euclidean norm; the sum of squares under the root is `Dot(v, v)`. */
  ghost function Length(v: Point): (r: real)
    ensures 0.0 <= r
  {
    Sqrt(Dot(v, v))
  }

  /**
   normalize: `v` scaled to unit length, or the zero vector when the length
   of `v` is zero (no failure is raised). Over the reals `v.x / l` is
   `(1 / l) * v.x`, so the division is written as a scaling.
   */
  ghost function Normalize(v: Point): (r: Point)
    ensures v == Zero ==> r == Zero
  {
    var l := Length(v);
    LengthOfZero();
    if l == 0.0 then Zero else Scale(v, 1.0 / l)
  }

  ghost function Min(a: real, b: real): (m: real) {
    if a <= b then a else b
  }

  /**
   vclip: `v` shortened to at most `length`. The source divides by the
   length of `v` whenever that length exceeds `length`, which fails when the
   length of `v` is zero and `length` is negative.
   */
  ghost function Clip(v: Point, length: real): (r: Result<Point>)
    ensures Length(v) <= length ==> r == Ok(v)
    ensures r.ZeroDivisionError? <==> Length(v) == 0.0 && length < 0.0
  {
    var l := Length(v);
    if l > length then
      if l == 0.0 then
        ZeroDivisionError
      else
        Ok(Scale(v, length / l))
    else
      Ok(v)
  }

  /** The dot product of a vector with itself is positive definite. */
  lemma DotSelf(v: Point)
    ensures 0.0 <= Dot(v, v)
    ensures Dot(v, v) == 0.0 <==> v == Zero
  {
    SquareNonNegative(v.x);
    SquareNonNegative(v.y);
    if Dot(v, v) == 0.0 {
      SquareZero(v.x);
      SquareZero(v.y);
    }
  }

  /** vorthogonal gives a perpendicular vector of the same length. */
  lemma OrthogonalIsPerpendicular(v: Point)
    ensures Dot(v, Orthogonal(v)) == 0.0
    ensures Dot(Orthogonal(v), Orthogonal(v)) == Dot(v, v)
  {
  }

  /** Two quarter turns reverse a vector. */
  lemma OrthogonalTwice(v: Point)
    ensures Orthogonal(Orthogonal(v)) == Scale(v, -1.0)
  {
  }

  /** vdiff and vadd are inverse: moving by the difference arrives at the target. */
  lemma AddDiffRoundTrip(p1: Point, p2: Point, t: Point)
    ensures Add(p1, Diff(p1, p2)) == p2
    ensures Diff(p1, Add(p1, t)) == t
    ensures Diff(Add(p1, t), Add(p2, t)) == Diff(p1, p2)
  {
  }

  /** Scaling by `a` scales squared length by `a * a`, and keeps the direction. */
  lemma ScaleDot(v: Point, a: real)
    ensures Dot(Scale(v, a), Scale(v, a)) == (a * a) * Dot(v, v)
    ensures Dot(Scale(v, a), v) == a * Dot(v, v)
    ensures Dot(Scale(v, a), Orthogonal(v)) == 0.0
  {
    ProductSwap(a, a, v.x);
  }

  lemma LengthOfZero()
    ensures Length(Zero) == 0.0
  {
    SqrtOfSquare(0.0);
    assert Dot(Zero, Zero) == 0.0 * 0.0;
  }

  /** Where the root exists, the length squared is the dot product, and zero only for zero. */
  lemma LengthSquared(v: Point)
    requires HasRoot(Dot(v, v))
    ensures Length(v) * Length(v) == Dot(v, v)
    ensures Length(v) == 0.0 <==> v == Zero
  {
    LengthZeroIff(v);
  }

  lemma LengthZeroIff(v: Point)
    requires HasRoot(Dot(v, v))
    ensures Length(v) == 0.0 <==> v == Zero
  {
    if Length(v) == 0.0 {
      ZeroLengthIsZero(v);
    }
    LengthOfZero();
  }

  lemma ZeroLengthIsZero(v: Point)
    requires HasRoot(Dot(v, v)) && Length(v) == 0.0
    ensures v == Zero
  {
    var l := Length(v);
    assert l * l == Dot(v, v);
    ZeroProduct(l, l);
    DotSelf(v);
  }


  /** normalize of a nonzero vector is a unit vector pointing the same way. */
  lemma NormalizeIsUnit(v: Point)
    requires v != Zero && HasRoot(Dot(v, v))
    ensures Dot(Normalize(v), Normalize(v)) == 1.0
    ensures Dot(Normalize(v), Orthogonal(v)) == 0.0
    ensures 0.0 < Dot(Normalize(v), v)
  {
    var l := Length(v);
    LengthSquared(v);
    var a := 1.0 / l;
    assert Normalize(v) == Scale(v, a);
    ScaleDot(v, a);
    InverseSquare(l);
    SquarePositive(l);
    PositiveProduct(a, l * l);
  }

  lemma InverseSquare(l: real)
    requires l != 0.0
    ensures ((1.0 / l) * (1.0 / l)) * (l * l) == 1.0
  {
    var a := 1.0 / l;
    assert a * l == 1.0;
    assert (a * a) * (l * l) == (a * l) * (a * l);
  }

  /** Normalising the reversed vector reverses the normalised vector. */
  lemma NormalizeNegate(v: Point)
    ensures Normalize(Scale(v, -1.0)) == Scale(Normalize(v), -1.0)
  {
    var w := Scale(v, -1.0);
    var l := Length(v);
    LengthNegate(v);
    if l == 0.0 {
      assert Normalize(w) == Zero;
      assert Normalize(v) == Zero;
      ScaleZero(-1.0);
    } else {
      assert Normalize(w) == Scale(w, 1.0 / l);
      assert Normalize(v) == Scale(v, 1.0 / l);
      ScaleCommutes(v, -1.0, 1.0 / l);
      hide *;
    }
  }

  lemma ScaleZero(a: real)
    ensures Scale(Zero, a) == Zero
  {
    ZeroProduct(0.0, a);
  }

  lemma LengthNegate(v: Point)
    ensures Length(Scale(v, -1.0)) == Length(v)
  {
    NegateDot(v);
    hide Dot, Scale, Sqrt;
  }

  lemma NegateDot(v: Point)
    ensures Dot(Scale(v, -1.0), Scale(v, -1.0)) == Dot(v, v)
  {
    ScaleDot(v, -1.0);
  }


  lemma ScaleCommutes(v: Point, a: real, b: real)
    ensures Scale(Scale(v, a), b) == Scale(Scale(v, b), a)
  {
    ProductSwap(a, b, v.x);
    ProductSwap(a, b, v.y);
  }

  /** An already unit vector is its own normalisation. */
  lemma NormalizeUnitVector(v: Point)
    requires Dot(v, v) == 1.0
    ensures Normalize(v) == v
  {
    SqrtOfSquare(1.0);
    assert Dot(v, v) == 1.0 * 1.0;
    assert Length(v) == 1.0;
  }

  /** Normalising a unit vector stretched by a positive factor gives the unit vector back. */
  lemma NormalizeScaledUnit(u: Point, s: real)
    requires Dot(u, u) == 1.0 && 0.0 < s
    ensures Normalize(Scale(u, s)) == u
  {
    var w := Scale(u, s);
    ScaleDot(u, s);
    assert Dot(w, w) == s * s;
    SqrtOfSquare(s);
    assert Length(w) == s;
    assert Normalize(w) == Scale(w, 1.0 / s);
    ScaleInverse(u, s);
  }

  lemma ScaleInverse(u: Point, s: real)
    requires s != 0.0
    ensures Scale(Scale(u, s), 1.0 / s) == u
  {
    InverseCancels(s, u.x);
    InverseCancels(s, u.y);
  }

  /** A vector plus its reverse has length zero. */
  lemma CancelLength(v: Point)
    ensures Add(v, Scale(v, -1.0)) == Zero
    ensures Length(Add(v, Scale(v, -1.0))) == 0.0
  {
    CancelToZero(v);
    hide Add, Scale;
    LengthOfZero();
  }

  lemma CancelToZero(v: Point)
    ensures Add(v, Scale(v, -1.0)) == Zero
    ensures Add(Scale(v, -1.0), v) == Zero
  {
    hide Diff;
    var w := Add(v, Scale(v, -1.0));
    assert w.x == 0.0 && w.y == 0.0;
    var w' := Add(Scale(v, -1.0), v);
    assert w'.x == 0.0 && w'.y == 0.0;
  }

  /**
   With a non-negative bound the clip never fails, keeps the direction of
   `v`, and its result is exactly as long as the smaller of the two lengths.
   */
  lemma ClipLength(v: Point, length: real)
    requires 0.0 <= length && HasRoot(Dot(v, v))
    ensures Clip(v, length).Ok?
    ensures Length(Clip(v, length).value) == Min(Length(v), length)
    ensures Dot(Clip(v, length).value, Orthogonal(v)) == 0.0
    ensures 0.0 <= Dot(Clip(v, length).value, v)
  {
    var l := Length(v);
    if l > length {
      ClipScale(v, l, length);
    } else {
      OrthogonalIsPerpendicular(v);
      DotSelf(v);
    }
  }

  lemma ClipScale(v: Point, l: real, length: real)
    requires 0.0 < l && l == Length(v)
    requires 0.0 <= length && HasRoot(Dot(v, v))
    ensures Length(Scale(v, length / l)) == length
    ensures Dot(Scale(v, length / l), Orthogonal(v)) == 0.0
    ensures 0.0 <= Dot(Scale(v, length / l), v)
  {
    hide *;
    var a := length / l;
    LengthSquared(v);
    ScaleDot(v, a);
    ClipFactor(a, l, length, Dot(v, v));
    LengthOfSquare(Scale(v, a), length);
    DotSelf(v);
    NonNegativeProduct(a, Dot(v, v));
  }

  /** A vector whose squared length is `length * length` has length `length`. */
  lemma LengthOfSquare(v: Point, length: real)
    requires 0.0 <= length && Dot(v, v) == length * length
    ensures Length(v) == length
  {
    SqrtOfSquare(length);
  }

  /** The factor `length / l` turns a squared length `l * l` into `length * length`. */
  lemma ClipFactor(a: real, l: real, length: real, d: real)
    requires 0.0 < l && 0.0 <= length && a == length / l && l * l == d
    ensures (a * a) * d == length * length && 0.0 <= a
  {
    assert a * l == length;
    assert (a * a) * (l * l) == (a * l) * (a * l);
  }

  /** The zero vector with a negative bound is the only failing input. */
  lemma ClipFailsOnlyOnZero(v: Point, length: real)
    requires HasRoot(Dot(v, v))
    ensures Clip(v, length).ZeroDivisionError? <==> v == Zero && length < 0.0
  {
    hide Dot;
    LengthZeroIff(v);
  }
}
