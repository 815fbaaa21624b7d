/**
 kerf of boxes/vectors.py: every point of a polyline is moved along the
 bisector of the normals of its two edges, far enough that both edges move
 by the kerf `k`. A closed polyline wraps around; an open one offsets each
 end point along the normal of its single edge. The division by the cosine
 of the half angle fails, and so the whole call fails, exactly when that
 cosine is zero.
 */
module Kerf {

  import opened Results
  import opened Vectors

  /** The index Python's `points[i - 1]` reads: the last point for `i == 0`. */
  function Prev(i: nat, n: nat): (r: nat)
    requires i < n
    ensures r < n
  {
    if i == 0 then n - 1 else i - 1
  }

  /** The index `(i + 1) % lp` of the following point: the first point after the last. */
  function Next(i: nat, n: nat): (r: nat)
    requires i < n
    ensures r < n
  {
    if i + 1 == n then 0 else i + 1
  }

  /**
   The neighbour indices are the ones Python computes: `i - 1` taken modulo
   `n` (a negative index counts from the end), and `(i + 1) % n`.
   */
  lemma NeighboursAreModular(i: nat, n: nat)
    requires i < n
    ensures Prev(i, n) == (i - 1) % n
    ensures Next(i, n) == (i + 1) % n
  {
  }

  /** The neighbours of the two ends, and of a lone point. */
  lemma EndIndices(i: nat, n: nat)
    requires i < n
    ensures 1 < n && i == 0 ==> Next(i, n) == 1
    ensures 1 < n && i == n - 1 ==> Prev(i, n) == n - 2
    ensures n == 1 ==> Prev(i, n) == 0 && Next(i, n) == 0
  {
  }

  /** The two neighbour indices are inverse to each other on `0 .. n - 1`. */
  lemma PrevNextInverse(i: nat, n: nat)
    requires i < n
    ensures Next(Prev(i, n), n) == i
    ensures Prev(Next(i, n), n) == i
  {
  }

  /**
   The unit normal of the edge from `a` to `b`, the edge direction turned a
   quarter turn counter-clockwise; zero for a degenerate edge.
   */
  ghost function EdgeNormal(a: Point, b: Point): (r: Point)
    ensures a == b ==> r == Zero
  {
    RepeatedEdge(a, b);
    Orthogonal(Normalize(Diff(a, b)))
  }

  /** A repeated point gives the zero step, which normalised and turned stays zero. */
  lemma RepeatedEdge(a: Point, b: Point)
    ensures a == b ==> Orthogonal(Normalize(Diff(a, b))) == Zero
  {
    hide Length, Dot;
    if a == b {
      assert Diff(a, b) == Zero by { hide Add, Normalize, Orthogonal; }
      hide Diff;
      assert Normalize(Diff(a, b)) == Zero;
      hide Normalize;
      assert Orthogonal(Zero) == Zero;
    }
  }

  /** A proper edge has a unit normal perpendicular to it. */
  lemma EdgeNormalIsUnit(a: Point, b: Point)
    requires a != b && HasRoot(Dot(Diff(a, b), Diff(a, b)))
    ensures Dot(EdgeNormal(a, b), EdgeNormal(a, b)) == 1.0
    ensures Dot(EdgeNormal(a, b), Diff(a, b)) == 0.0
  {
    var e := Diff(a, b);
    assert e != Zero by {
      AddDiffRoundTrip(a, b, Zero);
    }
    NormalizeIsUnit(e);
    OrthogonalIsPerpendicular(Normalize(e));
    NormalOfDirection(Normalize(e), e);
  }

  /** Quarter turns keep perpendicularity: `u` is perpendicular to the turned `e` iff the turned `u` is perpendicular to `e`. */
  lemma NormalOfDirection(u: Point, e: Point)
    requires Dot(u, Orthogonal(e)) == 0.0
    ensures Dot(Orthogonal(u), e) == 0.0
  {
  }

  /** The normals `(v1, v2)` kerf works with at one point. */
  datatype Corner = Corner(incoming: Point, outgoing: Point)

  /** The normal of the edge into point `i`, from its predecessor (the last point for the first). */
  ghost function IncomingNormal(points: seq<Point>, i: nat): (v: Point)
    requires i < |points|
  {
    EdgeNormal(points[Prev(i, |points|)], points[i])
  }

  /** The normal of the edge out of point `i`, to its successor (the first point for the last). */
  ghost function OutgoingNormal(points: seq<Point>, i: nat): (v: Point)
    requires i < |points|
  {
    EdgeNormal(points[i], points[Next(i, |points|)])
  }

  /**
   The normals kerf uses at point `i`. A closed polyline and an interior
   point use the normals of the edges into and out of it. An open polyline
   has no edge into its first point, nor out of its last, so the first point
   takes the outgoing normal for both and then the last point takes the
   incoming one for both, in that order.
   */
  ghost function CornerNormals(points: seq<Point>, closed: bool, i: nat): (c: Corner)
    requires i < |points|
    ensures closed || 0 < i < |points| - 1 ==> c == Corner(IncomingNormal(points, i), OutgoingNormal(points, i))
    ensures !closed && i == 0 ==> c == Corner(OutgoingNormal(points, i), OutgoingNormal(points, i))
    ensures !closed && 0 < i == |points| - 1 ==> c == Corner(IncomingNormal(points, i), IncomingNormal(points, i))
  {
    hide IncomingNormal, OutgoingNormal;
    var n := |points|;
    var v1 := IncomingNormal(points, i);
    var v2 := OutgoingNormal(points, i);
    var v1' := if !closed && i == 0 then v2 else v1;
    var v2' := if !closed && i == n - 1 then v1' else v2;
    Corner(v1', v2')
  }

  /** Each end of an open polyline takes the normal of its only edge for both normals. */
  lemma OpenEndNormals(points: seq<Point>)
    requires 2 <= |points|
    ensures var e := EdgeNormal(points[0], points[1]);
      CornerNormals(points, false, 0) == Corner(e, e)
    ensures var n := |points|; var e := EdgeNormal(points[n - 2], points[n - 1]);
      CornerNormals(points, false, n - 1) == Corner(e, e)
  {
    var n := |points|;
    EndIndices(0, n);
    EndIndices(n - 1, n);
    hide EdgeNormal;
  }

  /** A lone point has zero normals, closed or open: its only edge is degenerate. */
  lemma LonePointCorner(p: Point, closed: bool)
    ensures CornerNormals([p], closed, 0) == Corner(Zero, Zero)
  {
    EndIndices(0, 1);
    if closed {
      hide *;
    } else {
      hide EdgeNormal;
    }
  }

  /**
   The new position of `p` for the normals `v1` and `v2`: moved by
   `-k / cos_alpha` along the normalised sum `d` of the normals, where
   `cos_alpha` is the component of `v1` along `d`. The move has component
   exactly `-k` along `v1`: the edge the normal belongs to is shifted by `k`.
   */
  ghost function VertexOffset(p: Point, v1: Point, v2: Point, k: real): (r: Result<Point>)
    ensures r.Ok? ==> Dot(Diff(p, r.value), v1) == -k
  {
    var d := Normalize(Add(v1, v2));
    var cosAlpha := Dot(v1, d);
    if cosAlpha == 0.0 then
      ZeroDivisionError
    else
      var a := -k / cosAlpha;
      MoveAlong(p, d, v1, a);
      DivisionCancels(-k, cosAlpha);
      Ok(Add(p, Scale(d, a)))
  }

  lemma MoveAlong(p: Point, d: Point, v: Point, a: real)
    ensures Dot(Diff(p, Add(p, Scale(d, a))), v) == a * Dot(v, d)
  {
    AddDiffRoundTrip(p, p, Scale(d, a));
  }

  lemma DivisionCancels(k: real, c: real)
    requires c != 0.0
    ensures (k / c) * c == k
  {
  }

  /**
   The loop body of kerf for point `i`: the point moves so that the edge its
   incoming normal belongs to is shifted by `k`, and a zero incoming normal
   makes it fail.
   */
  ghost function Offset(points: seq<Point>, k: real, closed: bool, i: nat): (r: Result<Point>)
    requires i < |points|
    ensures r.Ok? ==> Dot(Diff(points[i], r.value), CornerNormals(points, closed, i).incoming) == -k
    ensures CornerNormals(points, closed, i).incoming == Zero ==> r == ZeroDivisionError
  {
    var c := CornerNormals(points, closed, i);
    VertexZeroIncoming(points[i], c.outgoing, k);
    VertexOffset(points[i], c.incoming, c.outgoing, k)
  }

  /** kerf over the points from index `i` on. */
  ghost function KerfFrom(points: seq<Point>, k: real, closed: bool, i: nat): (r: Result<seq<Point>>)
    requires i <= |points|
    ensures r.Ok? <==> forall j :: i <= j < |points| ==> Offset(points, k, closed, j).Ok?
    ensures r.Ok? ==> |r.value| == |points| - i
    ensures r.Ok? ==> forall j :: i <= j < |points| ==> r.value[j - i] == Offset(points, k, closed, j).value
    decreases |points| - i
  {
    if i == |points| then
      Ok([])
    else
      match Offset(points, k, closed, i)
      case ZeroDivisionError => ZeroDivisionError
      case Ok(q) =>
        match KerfFrom(points, k, closed, i + 1)
        case ZeroDivisionError => ZeroDivisionError
        case Ok(rest) => Ok([q] + rest)
  }

  /**
   kerf: one output point per input point, each the offset of its input
   point, or a ZeroDivisionError when the offset of any point fails.
   */
  ghost function Kerf(points: seq<Point>, k: real, closed: bool): (r: Result<seq<Point>>)
    ensures r.Ok? <==> forall i :: 0 <= i < |points| ==> Offset(points, k, closed, i).Ok?
    ensures r.Ok? ==> |r.value| == |points|
    ensures r.Ok? ==> forall i :: 0 <= i < |points| ==> r.value[i] == Offset(points, k, closed, i).value
  {
    KerfFrom(points, k, closed, 0)
  }

  /** A normal kerf works with: a unit vector, or zero for a degenerate edge. */
  ghost predicate UnitOrZero(v: Point) {
    v == Zero || Dot(v, v) == 1.0
  }

  /**
   For unit or zero normals the division fails exactly when the incoming
   normal is zero (the edge into the point is degenerate) or the two normals
   cancel (the polyline turns back on itself).
   */
  lemma VertexFailsIff(p: Point, v1: Point, v2: Point, k: real)
    requires UnitOrZero(v1) && UnitOrZero(v2)
    requires HasRoot(Dot(Add(v1, v2), Add(v1, v2)))
    ensures VertexOffset(p, v1, v2, k).ZeroDivisionError? <==> v1 == Zero || Add(v1, v2) == Zero
  {
    var w := Add(v1, v2);
    VertexFailsOnZeroCosine(p, v1, v2, k);
    hide VertexOffset;
    if v1 == Zero {
      ZeroDot(Normalize(w));
    } else if w == Zero {
      assert Normalize(w) == Zero;
      ZeroDot(v1);
      assert Dot(v1, Zero) == Dot(Zero, v1);
    } else {
      CosAlphaNonZero(v1, v2);
    }
  }

  lemma VertexFailsOnZeroCosine(p: Point, v1: Point, v2: Point, k: real)
    ensures VertexOffset(p, v1, v2, k).ZeroDivisionError? <==> Dot(v1, Normalize(Add(v1, v2))) == 0.0
  {
  }

  lemma ZeroDot(v: Point)
    ensures Dot(Zero, v) == 0.0
  {
    ZeroProduct(0.0, v.x);
    ZeroProduct(0.0, v.y);
  }

  lemma CosAlphaNonZero(v1: Point, v2: Point)
    requires Dot(v1, v1) == 1.0 && UnitOrZero(v2)
    requires Add(v1, v2) != Zero && HasRoot(Dot(Add(v1, v2), Add(v1, v2)))
    ensures Dot(v1, Normalize(Add(v1, v2))) != 0.0
  {
    var w := Add(v1, v2);
    NormalizedSum(v1, w);
    TurnComponent(v1, v2);
    DotSelf(w);
    NonZeroProduct(1.0 / Length(w), Dot(v1, w));
  }

  /** The component of `v1` along the sum is half the squared length of the sum, or one. */
  lemma TurnComponent(v1: Point, v2: Point)
    requires Dot(v1, v1) == 1.0 && UnitOrZero(v2)
    ensures v2 == Zero ==> Dot(v1, Add(v1, v2)) == 1.0
    ensures v2 != Zero ==> 2.0 * Dot(v1, Add(v1, v2)) == Dot(Add(v1, v2), Add(v1, v2))
  {
  }

  /** The normalised nonzero `w` is `w` scaled by the inverse of its length. */
  lemma NormalizedSum(v: Point, w: Point)
    requires w != Zero && HasRoot(Dot(w, w))
    ensures Length(w) != 0.0
    ensures Normalize(w) == Scale(w, 1.0 / Length(w))
    ensures Dot(v, Normalize(w)) == (1.0 / Length(w)) * Dot(v, w)
  {
    LengthZeroIff(w);
    DotScale(v, w, 1.0 / Length(w));
  }

  lemma DotScale(u: Point, w: Point, a: real)
    ensures Dot(u, Scale(w, a)) == a * Dot(u, w)
  {
  }

  lemma NonZeroProduct(a: real, b: real)
    requires a != 0.0 && b != 0.0
    ensures a * b != 0.0
  {
  }

  /**
   Where it succeeds, the offset is the sum `w` of the normals scaled by
   `-k / (v1 . w)`: for unit normals `v1 . w` is one plus the cosine of the
   turn, so no square root is left in the result.
   */
  lemma MiterClosedForm(p: Point, v1: Point, v2: Point, k: real)
    requires Add(v1, v2) != Zero && HasRoot(Dot(Add(v1, v2), Add(v1, v2)))
    requires Dot(v1, Add(v1, v2)) != 0.0
    ensures VertexOffset(p, v1, v2, k) == Ok(Add(p, Scale(Add(v1, v2), -k / Dot(v1, Add(v1, v2)))))
  {
    var w := Add(v1, v2);
    var e := Dot(v1, w);
    NormalizedSum(v1, w);
    var a := 1.0 / Length(w);
    InverseNonZero(Length(w));
    NonZeroProduct(a, e);
    var c := Dot(v1, Normalize(w));
    assert c == a * e;
    assert VertexOffset(p, v1, v2, k) == Ok(Add(p, Scale(Normalize(w), -k / c)));
    MiterScale(w, a, e, -k);
    assert Scale(Normalize(w), -k / c) == Scale(w, -k / e);
  }

  lemma InverseNonZero(l: real)
    requires l != 0.0
    ensures 1.0 / l != 0.0
  {
  }

  lemma MiterScale(w: Point, a: real, e: real, k: real)
    requires a != 0.0 && e != 0.0
    ensures Scale(Scale(w, a), k / (a * e)) == Scale(w, k / e)
  {
    DivisionFactor(k, a, e, w.x);
    DivisionFactor(k, a, e, w.y);
  }

  lemma DivisionFactor(k: real, a: real, e: real, x: real)
    requires a != 0.0 && e != 0.0
    ensures (k / (a * e)) * (a * x) == (k / e) * x
  {
  }

  /** Normals of equal length have equal components along their normalised sum. */
  lemma EqualComponents(v1: Point, v2: Point)
    requires Dot(v1, v1) == Dot(v2, v2)
    ensures Dot(v1, Normalize(Add(v1, v2))) == Dot(v2, Normalize(Add(v1, v2)))
  {
    var w := Add(v1, v2);
    var l := Length(w);
    if l == 0.0 {
      ZeroDot(v1);
      ZeroDot(v2);
      assert Dot(v1, Zero) == Dot(Zero, v1) && Dot(v2, Zero) == Dot(Zero, v2);
    } else {
      DotScale(v1, w, 1.0 / l);
      DotScale(v2, w, 1.0 / l);
      assert Dot(v1, w) == Dot(v2, w);
    }
  }

  /**
   With unit normals the offset point lies at the kerf from both edges: its
   move has component `-k` along the outgoing normal as well.
   */
  lemma MiterBothEdges(p: Point, v1: Point, v2: Point, k: real)
    requires Dot(v1, v1) == Dot(v2, v2)
    ensures VertexOffset(p, v1, v2, k).Ok? ==> Dot(Diff(p, VertexOffset(p, v1, v2, k).value), v2) == -k
  {
    var d := Normalize(Add(v1, v2));
    var c := Dot(v1, d);
    if c == 0.0 {
    } else {
      var a := -k / c;
      assert VertexOffset(p, v1, v2, k) == Ok(Add(p, Scale(d, a)));
      MoveAlong(p, d, v1, a);
      MoveAlong(p, d, v2, a);
      EqualComponents(v1, v2);
    }
  }

  /** Two equal unit normals (a straight continuation, or an open end) move the point by `-k` along the normal. */
  lemma StraightOffset(p: Point, v: Point, k: real)
    requires Dot(v, v) == 1.0
    ensures VertexOffset(p, v, v, k) == Ok(Add(p, Scale(v, -k)))
  {
    var w := Add(v, v);
    assert Dot(w, w) == 2.0 * 2.0;
    SqrtOfSquare(2.0);
    assert w != Zero;
    assert Dot(v, w) == 2.0;
    MiterClosedForm(p, v, v, k);
    assert Scale(w, -k / 2.0) == Scale(v, -k);
  }

  /** At a right-angle corner the point moves by `-k` along both normals. */
  lemma RightAngleOffset(p: Point, v1: Point, v2: Point, k: real)
    requires Dot(v1, v1) == 1.0 && Dot(v2, v2) == 1.0 && Dot(v1, v2) == 0.0
    requires HasRoot(2.0)
    ensures VertexOffset(p, v1, v2, k) == Ok(Add(p, Scale(Add(v1, v2), -k)))
  {
    var w := Add(v1, v2);
    assert Dot(w, w) == 2.0;
    assert w != Zero;
    assert Dot(v1, w) == 1.0;
    MiterClosedForm(p, v1, v2, k);
  }

  /** A proper edge has a nonzero normal, so the normal is zero exactly for a repeated point. */
  lemma EdgeNormalZeroIff(a: Point, b: Point)
    requires HasRoot(Dot(Diff(a, b), Diff(a, b)))
    ensures UnitOrZero(EdgeNormal(a, b))
    ensures EdgeNormal(a, b) == Zero <==> a == b
  {
    if a != b {
      EdgeNormalIsUnit(a, b);
      DotSelf(EdgeNormal(a, b));
    }
  }

  /**
   The square roots kerf takes at point `i` exist: those of the squared
   lengths of both edges and of the sum of the corner normals.
   */
  ghost predicate RootsAt(points: seq<Point>, closed: bool, i: nat)
    requires i < |points|
  {
    var n := |points|;
    var c := CornerNormals(points, closed, i);
    && HasRoot(Dot(Diff(points[Prev(i, n)], points[i]), Diff(points[Prev(i, n)], points[i])))
    && HasRoot(Dot(Diff(points[i], points[Next(i, n)]), Diff(points[i], points[Next(i, n)])))
    && HasRoot(Dot(Add(c.incoming, c.outgoing), Add(c.incoming, c.outgoing)))
  }

  /** Point `i` fails exactly when its incoming normal is zero or its two normals cancel. */
  lemma OffsetFailsIff(points: seq<Point>, k: real, closed: bool, i: nat)
    requires i < |points| && RootsAt(points, closed, i)
    ensures var c := CornerNormals(points, closed, i);
      Offset(points, k, closed, i).ZeroDivisionError? <==> c.incoming == Zero || Add(c.incoming, c.outgoing) == Zero
  {
    var c := CornerNormals(points, closed, i);
    CornerUnitOrZero(points, closed, i);
    hide EdgeNormal, CornerNormals, RootsAt, UnitOrZero, Normalize, Length, Sqrt;
    VertexFailsIff(points[i], c.incoming, c.outgoing, k);
  }

  /**
   On a closed polyline point `i` fails exactly when it repeats its
   predecessor or the polyline turns straight back at it.
   */
  lemma ClosedOffsetFailsIff(points: seq<Point>, k: real, i: nat)
    requires i < |points| && RootsAt(points, true, i)
    ensures var n := |points|;
      Offset(points, k, true, i).ZeroDivisionError? <==>
        || points[Prev(i, n)] == points[i]
        || Add(EdgeNormal(points[Prev(i, n)], points[i]), EdgeNormal(points[i], points[Next(i, n)])) == Zero
  {
    OffsetFailsIff(points, k, true, i);
    CornerUnitOrZero(points, true, i);
    hide *;
  }

  /** The corner normals are unit or zero; on a closed polyline the incoming one is zero exactly at a repeat. */
  lemma CornerUnitOrZero(points: seq<Point>, closed: bool, i: nat)
    requires i < |points| && RootsAt(points, closed, i)
    ensures var c := CornerNormals(points, closed, i);
      && UnitOrZero(c.incoming) && UnitOrZero(c.outgoing)
      && HasRoot(Dot(Add(c.incoming, c.outgoing), Add(c.incoming, c.outgoing)))
    ensures var n := |points|;
      closed ==> (CornerNormals(points, closed, i)
                  == Corner(EdgeNormal(points[Prev(i, n)], points[i]), EdgeNormal(points[i], points[Next(i, n)])))
    ensures closed ==> (CornerNormals(points, closed, i).incoming == Zero <==> points[Prev(i, |points|)] == points[i])
  {
    var n := |points|;
    EdgeNormalZeroIff(points[Prev(i, n)], points[i]);
    EdgeNormalZeroIff(points[i], points[Next(i, n)]);
  }

  /** A zero incoming normal always makes the division fail. */
  lemma VertexZeroIncoming(p: Point, v2: Point, k: real)
    ensures VertexOffset(p, Zero, v2, k) == ZeroDivisionError
  {
    ZeroDot(Normalize(Add(Zero, v2)));
  }

  /** One failing point makes the whole call fail. */
  lemma KerfFailsAt(points: seq<Point>, k: real, closed: bool, i: nat)
    requires i < |points| && Offset(points, k, closed, i) == ZeroDivisionError
    ensures Kerf(points, k, closed) == ZeroDivisionError
  {
    hide *;
  }

  /** The incoming normal of a point that repeats its predecessor is zero. */
  lemma RepeatHasZeroIncoming(points: seq<Point>, closed: bool, i: nat)
    requires i < |points| && points[Prev(i, |points|)] == points[i]
    requires closed || 0 < i || |points| == 1
    ensures CornerNormals(points, closed, i).incoming == Zero
  {
  }

  /**
   A point equal to its predecessor makes kerf fail, closed or open (on an
   open polyline at the later of the two points).
   */
  lemma KerfRepeatedPointFails(points: seq<Point>, k: real, closed: bool, j: nat)
    requires j + 1 < |points| && points[j] == points[j + 1]
    ensures Kerf(points, k, closed) == ZeroDivisionError
  {
    assert Prev(j + 1, |points|) == j;
    RepeatHasZeroIncoming(points, closed, j + 1);
    KerfFailsAt(points, k, closed, j + 1);
  }

  /** On a closed polyline the wrap-around edge counts: a last point equal to the first one fails. */
  lemma KerfClosingRepeatFails(points: seq<Point>, k: real)
    requires 0 < |points| && points[|points| - 1] == points[0]
    ensures Kerf(points, k, true) == ZeroDivisionError
  {
    hide EdgeNormal;
    assert Prev(0, |points|) == |points| - 1;
    RepeatHasZeroIncoming(points, true, 0);
    KerfFailsAt(points, k, true, 0);
  }

  /** A single point has no edge to offset from: kerf fails, closed or open. */
  lemma KerfSinglePointFails(p: Point, k: real, closed: bool)
    ensures Kerf([p], k, closed) == ZeroDivisionError
  {
    LonePointCorner(p, closed);
    hide *;
    KerfFailsAt([p], k, closed, 0);
  }

  /** A closed polyline of two distinct points turns straight back at both: kerf fails. */
  lemma KerfClosedSegmentFails(a: Point, b: Point, k: real)
    ensures Kerf([a, b], k, true) == ZeroDivisionError
  {
    ClosedSegmentCorner(a, b);
    hide *;
    OffsetCancels([a, b], k, true, 0);
    KerfFailsAt([a, b], k, true, 0);
  }

  /** A point whose two normals cancel fails. */
  lemma OffsetCancels(points: seq<Point>, k: real, closed: bool, i: nat)
    requires i < |points|
    requires var c := CornerNormals(points, closed, i); Add(c.incoming, c.outgoing) == Zero
    ensures Offset(points, k, closed, i) == ZeroDivisionError
  {
    var c := CornerNormals(points, closed, i);
    VertexCancelling(points[i], c.incoming, c.outgoing, k);
  }

  /** The first point of a closed two-point polyline has opposite normals, which cancel. */
  lemma ClosedSegmentCorner(a: Point, b: Point)
    ensures var c := CornerNormals([a, b], true, 0);
      c.incoming == Scale(c.outgoing, -1.0) && Add(c.incoming, c.outgoing) == Zero
  {
    var c := CornerNormals([a, b], true, 0);
    assert c == Corner(EdgeNormal(b, a), EdgeNormal(a, b)) by {
      assert Prev(0, 2) == 1 && Next(0, 2) == 1;
      hide *;
    }
    ReversedEdgeNormal(a, b);
    CancelToZero(EdgeNormal(a, b));
    hide *;
  }

  /** Reversing an edge reverses its normal. */
  lemma ReversedEdgeNormal(a: Point, b: Point)
    ensures EdgeNormal(b, a) == Scale(EdgeNormal(a, b), -1.0)
  {
    var e := Diff(a, b);
    assert Diff(b, a) == Scale(e, -1.0) by {
      hide Normalize, Orthogonal, EdgeNormal;
    }
    NormalizeNegate(e);
    var u := Normalize(e);
    assert Orthogonal(Scale(u, -1.0)) == Scale(Orthogonal(u), -1.0) by {
      hide Normalize, Diff, EdgeNormal;
    }
    assert EdgeNormal(a, b) == Orthogonal(u) && EdgeNormal(b, a) == Orthogonal(Normalize(Diff(b, a))) by {
      hide Normalize, Orthogonal, Diff;
    }
    hide *;
  }

  lemma ForwardNormal()
    ensures EdgeNormal(Point(0.0, 0.0), Point(1.0, 0.0)) == Point(0.0, 1.0)
  {
    StepNormal(Point(0.0, 0.0), Point(1.0, 0.0), Point(1.0, 0.0));
  }

  lemma StepNormal(a: Point, u: Point, b: Point)
    requires Dot(u, u) == 1.0 && Add(a, u) == b
    ensures EdgeNormal(a, b) == Orthogonal(u)
  {
    EdgeNormalOfUnitStep(a, u);
  }

  /** The normal of an edge of unit length is its direction turned a quarter turn. */
  lemma EdgeNormalOfUnitStep(a: Point, u: Point)
    requires Dot(u, u) == 1.0
    ensures EdgeNormal(a, Add(a, u)) == Orthogonal(u)
  {
    AddDiffRoundTrip(a, a, u);
    NormalizeUnitVector(u);
  }

  /** Normals that cancel make the division fail. */
  lemma VertexCancelling(p: Point, v1: Point, v2: Point, k: real)
    requires Add(v1, v2) == Zero
    ensures VertexOffset(p, v1, v2, k) == ZeroDivisionError
  {
    ZeroDot(v1);
    assert Dot(v1, Zero) == Dot(Zero, v1);
  }

  /**
   Output `i` depends only on point `i` and its two neighbours: polylines of
   the same length that agree there give the same offset for point `i`.
   */
  lemma OffsetLocal(points: seq<Point>, other: seq<Point>, k: real, closed: bool, i: nat)
    requires i < |points| == |other|
    requires var n := |points|;
      other[Prev(i, n)] == points[Prev(i, n)] && other[i] == points[i] && other[Next(i, n)] == points[Next(i, n)]
    ensures Offset(other, k, closed, i) == Offset(points, k, closed, i)
  {
  }

  /** Every point of `points` moved by `t`. */
  function TranslateAll(points: seq<Point>, t: Point): (r: seq<Point>)
    ensures |r| == |points|
    ensures forall i :: 0 <= i < |r| ==> Diff(points[i], r[i]) == t
  {
    seq(|points|, i requires 0 <= i < |points| => Add(points[i], t))
  }

  /** Moving the polyline moves no normal. */
  lemma CornerTranslate(points: seq<Point>, t: Point, closed: bool, i: nat)
    requires i < |points|
    ensures CornerNormals(TranslateAll(points, t), closed, i) == CornerNormals(points, closed, i)
  {
    var n := |points|;
    var q := TranslateAll(points, t);
    AddDiffRoundTrip(points[Prev(i, n)], points[i], t);
    AddDiffRoundTrip(points[i], points[Next(i, n)], t);
    assert Diff(q[Prev(i, n)], q[i]) == Diff(points[Prev(i, n)], points[i]);
    assert Diff(q[i], q[Next(i, n)]) == Diff(points[i], points[Next(i, n)]);
  }

  /** The offset of a moved point is the moved offset. */
  lemma VertexTranslate(p: Point, t: Point, v1: Point, v2: Point, k: real)
    ensures VertexOffset(Add(p, t), v1, v2, k).Ok? == VertexOffset(p, v1, v2, k).Ok?
    ensures VertexOffset(p, v1, v2, k).Ok? ==>
      VertexOffset(Add(p, t), v1, v2, k).value == Add(VertexOffset(p, v1, v2, k).value, t)
  {
  }

  lemma OffsetTranslate(points: seq<Point>, t: Point, k: real, closed: bool, i: nat)
    requires i < |points|
    ensures Offset(TranslateAll(points, t), k, closed, i).Ok? == Offset(points, k, closed, i).Ok?
    ensures Offset(points, k, closed, i).Ok? ==>
      Offset(TranslateAll(points, t), k, closed, i).value == Add(Offset(points, k, closed, i).value, t)
  {
    CornerTranslate(points, t, closed, i);
    var c := CornerNormals(points, closed, i);
    assert TranslateAll(points, t)[i] == Add(points[i], t);
    VertexTranslate(points[i], t, c.incoming, c.outgoing, k);
  }

  /** kerf commutes with translation: moving the input moves the output and changes no failure. */
  lemma KerfTranslate(points: seq<Point>, t: Point, k: real, closed: bool)
    ensures Kerf(TranslateAll(points, t), k, closed).Ok? <==> Kerf(points, k, closed).Ok?
    ensures Kerf(points, k, closed).Ok? ==>
      Kerf(TranslateAll(points, t), k, closed).value == TranslateAll(Kerf(points, k, closed).value, t)
  {
    forall i | 0 <= i < |points|
      ensures Offset(TranslateAll(points, t), k, closed, i).Ok? == Offset(points, k, closed, i).Ok?
      ensures Offset(points, k, closed, i).Ok? ==>
        Offset(TranslateAll(points, t), k, closed, i).value == Add(Offset(points, k, closed, i).value, t)
    {
      OffsetTranslate(points, t, k, closed, i);
    }
    hide Offset;
    if Kerf(points, k, closed).Ok? {
      var r := Kerf(points, k, closed).value;
      var q := Kerf(TranslateAll(points, t), k, closed).value;
      forall i | 0 <= i < |points|
        ensures q[i] == TranslateAll(r, t)[i]
      {
        AddDiffRoundTrip(r[i], TranslateAll(r, t)[i], Zero);
      }
    }
  }

  /** A zero kerf moves no point that does not fail. */
  lemma VertexZeroKerf(p: Point, v1: Point, v2: Point)
    ensures VertexOffset(p, v1, v2, 0.0).Ok? ==> VertexOffset(p, v1, v2, 0.0).value == p
  {
    var d := Normalize(Add(v1, v2));
    var c := Dot(v1, d);
    if c == 0.0 {
    } else {
      assert -0.0 / c == 0.0;
      ScaleZeroFactor(d);
    }
  }

  lemma ScaleZeroFactor(v: Point)
    ensures Scale(v, 0.0) == Zero
  {
    ZeroProduct(0.0, v.x);
    ZeroProduct(0.0, v.y);
  }

  /** With `k == 0` kerf returns its input, wherever it does not fail. */
  lemma KerfZeroIdentity(points: seq<Point>, closed: bool)
    ensures Kerf(points, 0.0, closed).Ok? ==> Kerf(points, 0.0, closed).value == points
  {
    forall i | 0 <= i < |points|
      ensures Offset(points, 0.0, closed, i).Ok? ==> Offset(points, 0.0, closed, i).value == points[i]
    {
      var c := CornerNormals(points, closed, i);
      VertexZeroKerf(points[i], c.incoming, c.outgoing);
    }
  }

  /** An end point of an open polyline moves by `-k` along the normal of its edge. */
  lemma OpenFirstOffset(points: seq<Point>, k: real)
    requires 2 <= |points|
    requires points[0] != points[1] && HasRoot(Dot(Diff(points[0], points[1]), Diff(points[0], points[1])))
    ensures Offset(points, k, false, 0) == Ok(Add(points[0], Scale(EdgeNormal(points[0], points[1]), -k)))
  {
    EdgeNormalIsUnit(points[0], points[1]);
    StraightOffset(points[0], EdgeNormal(points[0], points[1]), k);
  }

  lemma OpenLastOffset(points: seq<Point>, k: real)
    requires 2 <= |points|
    requires var n := |points|;
      points[n - 2] != points[n - 1] && HasRoot(Dot(Diff(points[n - 2], points[n - 1]), Diff(points[n - 2], points[n - 1])))
    ensures var n := |points|;
      Offset(points, k, false, n - 1) == Ok(Add(points[n - 1], Scale(EdgeNormal(points[n - 2], points[n - 1]), -k)))
  {
    var n := |points|;
    EdgeNormalIsUnit(points[n - 2], points[n - 1]);
    StraightOffset(points[n - 1], EdgeNormal(points[n - 2], points[n - 1]), k);
  }

  /** The open segment from (0, 0) to (1, 0) moves down by `k`: both points lie on the moved edge. */
  lemma KerfOpenSegment(k: real)
    ensures Kerf([Point(0.0, 0.0), Point(1.0, 0.0)], k, false) == Ok([Point(0.0, -k), Point(1.0, -k)])
  {
    var points := [Point(0.0, 0.0), Point(1.0, 0.0)];
    SegmentFirst(k);
    SegmentLast(k);
    hide *;
    var r := Kerf(points, k, false);
    assert r.Ok?;
    assert r.value == [Point(0.0, -k), Point(1.0, -k)];
  }

  lemma SegmentFirst(k: real)
    ensures Offset([Point(0.0, 0.0), Point(1.0, 0.0)], k, false, 0) == Ok(Point(0.0, -k))
  {
    hide *;
    var points := [Point(0.0, 0.0), Point(1.0, 0.0)];
    SegmentRoot();
    ForwardNormal();
    OpenFirstOffset(points, k);
    ShiftDown(0.0, k);
  }

  lemma SegmentLast(k: real)
    ensures Offset([Point(0.0, 0.0), Point(1.0, 0.0)], k, false, 1) == Ok(Point(1.0, -k))
  {
    hide *;
    var points := [Point(0.0, 0.0), Point(1.0, 0.0)];
    SegmentRoot();
    ForwardNormal();
    OpenLastOffset(points, k);
    ShiftDown(1.0, k);
  }

  /** The edge from (0, 0) to (1, 0) has a length: the square root of its squared length exists. */
  lemma SegmentRoot()
    ensures var e := Diff(Point(0.0, 0.0), Point(1.0, 0.0)); HasRoot(Dot(e, e))
  {
    var e := Diff(Point(0.0, 0.0), Point(1.0, 0.0));
    assert e == Point(1.0, 0.0) by { hide Add, Normalize, Orthogonal, EdgeNormal; }
    UnitRoot(e);
  }

  /** The squared length of `(1, 0)` has a root. */
  lemma UnitRoot(e: Point)
    requires e == Point(1.0, 0.0)
    ensures HasRoot(Dot(e, e))
  {
    assert Dot(e, e) == 1.0 * 1.0;
    SqrtOfSquare(1.0);
  }

  /** Moving `(x, 0)` by `-k` along the upward normal lands on `(x, -k)`. */
  lemma ShiftDown(x: real, k: real)
    ensures Add(Point(x, 0.0), Scale(Point(0.0, 1.0), -k)) == Point(x, -k)
  {
    ZeroProduct(0.0, -k);
    hide Diff;
  }

  /**
   The axis-parallel square with lower-left corner `c` and side `s`, its
   corners counter-clockwise; the unit directions of its edges `i` to `i + 1`
   and their normals.
   */
  function SquareOf(c: Point, s: real): (square: seq<Point>) {
    [c, Point(c.x + s, c.y), Point(c.x + s, c.y + s), Point(c.x, c.y + s)]
  }

  const SquareSteps := [Point(1.0, 0.0), Point(0.0, 1.0), Point(-1.0, 0.0), Point(0.0, -1.0)]
  const SquareNormals := [Point(0.0, 1.0), Point(-1.0, 0.0), Point(0.0, -1.0), Point(1.0, 0.0)]

  /** The edge normal of an edge that is a positive multiple of a unit step is the turned step. */
  lemma ScaledStepNormal(a: Point, u: Point, s: real, b: Point)
    requires Dot(u, u) == 1.0 && 0.0 < s && Add(a, Scale(u, s)) == b
    ensures EdgeNormal(a, b) == Orthogonal(u)
  {
    AddDiffRoundTrip(a, a, Scale(u, s));
    NormalizeScaledUnit(u, s);
  }

  lemma SquareEdge(c: Point, s: real, i: nat)
    requires 0.0 < s && i < 4
    ensures EdgeNormal(SquareOf(c, s)[i], SquareOf(c, s)[Next(i, 4)]) == SquareNormals[i]
  {
    var q := SquareOf(c, s);
    var u := SquareSteps[i];
    assert Dot(u, u) == 1.0;
    assert Add(q[i], Scale(u, s)) == q[Next(i, 4)];
    ScaledStepNormal(q[i], u, s, q[Next(i, 4)]);
  }

  lemma SquareCorner(c: Point, s: real, i: nat)
    requires 0.0 < s && i < 4
    ensures CornerNormals(SquareOf(c, s), true, i) == Corner(SquareNormals[Prev(i, 4)], SquareNormals[i])
  {
    hide EdgeNormal;
    SquareEdge(c, s, Prev(i, 4));
    SquareEdge(c, s, i);
    PrevNextInverse(i, 4);
  }

  lemma SquareNormalsTurn(i: nat)
    requires i < 4
    ensures var v1, v2 := SquareNormals[Prev(i, 4)], SquareNormals[i];
      Dot(v1, v1) == 1.0 && Dot(v2, v2) == 1.0 && Dot(v1, v2) == 0.0
  {
  }

  lemma SquareMove(c: Point, s: real, k: real, i: nat)
    requires i < 4
    ensures Add(SquareOf(c, s)[i], Scale(Add(SquareNormals[Prev(i, 4)], SquareNormals[i]), -k))
         == SquareOf(Point(c.x - k, c.y - k), s + 2.0 * k)[i]
  {
    hide Diff;
  }

  lemma SquareOffset(c: Point, s: real, k: real, i: nat)
    requires 0.0 < s && i < 4 && HasRoot(2.0)
    ensures Offset(SquareOf(c, s), k, true, i) == Ok(SquareOf(Point(c.x - k, c.y - k), s + 2.0 * k)[i])
  {
    hide EdgeNormal, VertexOffset;
    SquareCorner(c, s, i);
    SquareNormalsTurn(i);
    RightAngleOffset(SquareOf(c, s)[i], SquareNormals[Prev(i, 4)], SquareNormals[i], k);
    SquareMove(c, s, k, i);
  }

  /**
   A closed counter-clockwise square of side `s` grows by `k` on every side:
   each corner moves diagonally, by `k` along both of its edge normals.
   */
  lemma KerfSquare(c: Point, s: real, k: real)
    requires 0.0 < s && HasRoot(2.0)
    ensures Kerf(SquareOf(c, s), k, true) == Ok(SquareOf(Point(c.x - k, c.y - k), s + 2.0 * k))
  {
    hide Sqrt, Length, Normalize, EdgeNormal, VertexOffset;
    var grown := SquareOf(Point(c.x - k, c.y - k), s + 2.0 * k);
    forall i | 0 <= i < 4
      ensures Offset(SquareOf(c, s), k, true, i) == Ok(grown[i])
    {
      SquareOffset(c, s, k, i);
    }
    assert |SquareOf(c, s)| == 4 && |grown| == 4;
    hide *;
    var r := Kerf(SquareOf(c, s), k, true);
    assert r.Ok?;
    assert r.value == grown;
  }

  /** The unit square `[(0, 0), (1, 0), (1, 1), (0, 1)]` offset by `k` has corners `(-k, -k)` to `(1 + k, 1 + k)`. */
  lemma KerfUnitSquare(k: real)
    requires HasRoot(2.0)
    ensures Kerf([Point(0.0, 0.0), Point(1.0, 0.0), Point(1.0, 1.0), Point(0.0, 1.0)], k, true)
         == Ok([Point(-k, -k), Point(1.0 + k, -k), Point(1.0 + k, 1.0 + k), Point(-k, 1.0 + k)])
  {
    hide Kerf, SquareOf;
    KerfSquare(Point(0.0, 0.0), 1.0, k);
    UnitSquareCorners(k);
  }

  lemma UnitSquareCorners(k: real)
    ensures SquareOf(Point(0.0, 0.0), 1.0) == [Point(0.0, 0.0), Point(1.0, 0.0), Point(1.0, 1.0), Point(0.0, 1.0)]
    ensures SquareOf(Point(0.0 - k, 0.0 - k), 1.0 + 2.0 * k)
         == [Point(-k, -k), Point(1.0 + k, -k), Point(1.0 + k, 1.0 + k), Point(-k, 1.0 + k)]
  {
    var c := Point(0.0 - k, 0.0 - k);
    var s := 1.0 + 2.0 * k;
    assert c.x + s == 1.0 + k && c.y + s == 1.0 + k && c == Point(-k, -k);
  }

  /**
   Offsetting a square by `k` and the result by `-k` gives the square back,
   as long as the grown (or shrunk) square keeps a positive side.
   */
  lemma KerfSquareRoundTrip(c: Point, s: real, k: real)
    requires 0.0 < s && 0.0 < s + 2.0 * k && HasRoot(2.0)
    ensures Kerf(SquareOf(c, s), k, true).Ok?
    ensures Kerf(Kerf(SquareOf(c, s), k, true).value, -k, true) == Ok(SquareOf(c, s))
  {
    hide Kerf, SquareOf;
    var c' := Point(c.x - k, c.y - k);
    KerfSquare(c, s, k);
    KerfSquare(c', s + 2.0 * k, -k);
    assert Point(c'.x - -k, c'.y - -k) == c && (s + 2.0 * k) + 2.0 * -k == s;
    assert SquareOf(Point(c'.x - -k, c'.y - -k), (s + 2.0 * k) + 2.0 * -k) == SquareOf(c, s);
  }
}
