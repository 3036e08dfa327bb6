/** The collider component and its separating-axis overlap test. */
module Collider {
  import opened Geometry

  /** A polygon given by its local-space points, the entity ids it has collided with,
      and whether it takes part in detection. */
  datatype Collider = Collider(points: seq<Vec2>, collisions: seq<nat>, active: bool)

  /** A collider over `points` that has recorded no collisions yet. */
  function New(points: seq<Vec2>, active: bool): (c: Collider)
    ensures c.points == points && c.active == active
    ensures c.collisions == []
  {
    Collider(points, [], active)
  }

  /** An axis-aligned rectangle of size `dims` centred on the local origin, its corners
      listed bottom-left, top-left, top-right, bottom-right. */
  function Rect(dims: Vec2, active: bool): (c: Collider)
    ensures c.active == active && c.collisions == []
    ensures |c.points| == 4
    ensures c.points[0] == Vec2(-dims.x / 2.0, -dims.y / 2.0)
    ensures c.points[1] == Vec2(-dims.x / 2.0, dims.y / 2.0)
    ensures c.points[2] == Vec2(dims.x / 2.0, dims.y / 2.0)
    ensures c.points[3] == Vec2(dims.x / 2.0, -dims.y / 2.0)
  {
    var half := Vec2(dims.x / 2.0, dims.y / 2.0);
    New([Vec2(-half.x, -half.y), Vec2(-half.x, half.y), Vec2(half.x, half.y), Vec2(half.x, -half.y)],
        active)
  }

  /** Every local point mapped through the transform's matrix, in the same order. */
  function ToWorld(points: seq<Vec2>, m: Matrix3): (world: seq<Vec2>)
    ensures |world| == |points|
    ensures forall k :: 0 <= k < |points| ==> world[k] == Apply(m, points[k])
  {
    seq(|points|, k requires 0 <= k < |points| => Apply(m, points[k]))
  }

  /** The axis tested for edge `i`: the normal of points[i] -> points[(i + 1) % n], so the
      last edge closes the polygon back to its first point. */
  function EdgeAxis(ps: seq<Vec2>, i: nat): Vec2
    requires i < |ps|
  {
    EdgeNormal(ps[i], ps[(i + 1) % |ps|])
  }

  /** `q` replaces the running minimum: there is none yet, or `q` is strictly smaller. */
  predicate Below(acc: Option<real>, q: real)
  {
    match acc
    case None => true
    case Some(m) => q < m
  }

  /** `q` replaces the running maximum: there is none yet, or `q` is strictly larger. */
  predicate Above(acc: Option<real>, q: real)
  {
    match acc
    case None => true
    case Some(m) => q > m
  }

  /** The running minimum of the projections of `ps` onto `n`, scanned front to back. */
  function MinProjection(n: Vec2, ps: seq<Vec2>): Option<real>
  {
    if ps == [] then None
    else
      var acc := MinProjection(n, ps[..|ps| - 1]);
      var q := Project(n, ps[|ps| - 1]);
      if Below(acc, q) then Some(q) else acc
  }

  /** The running maximum of the projections of `ps` onto `n`, scanned front to back. */
  function MaxProjection(n: Vec2, ps: seq<Vec2>): Option<real>
  {
    if ps == [] then None
    else
      var acc := MaxProjection(n, ps[..|ps| - 1]);
      var q := Project(n, ps[|ps| - 1]);
      if Above(acc, q) then Some(q) else acc
  }

  /** The test applied to the four accumulators after both projection loops: an interval
      lies wholly before the other, or a bound is missing. */
  predicate Separated(aMin: Option<real>, aMax: Option<real>, bMin: Option<real>, bMax: Option<real>)
  {
    (match (aMax, bMin)
     case (Some(hi), Some(lo)) => hi < lo
     case _ => true)
    ||
    (match (bMax, aMin)
     case (Some(hi), Some(lo)) => hi < lo
     case _ => true)
  }

  /** The axis `n` separates `a` from `b` by the test above. */
  predicate AxisSeparates(n: Vec2, a: seq<Vec2>, b: seq<Vec2>)
  {
    Separated(MinProjection(n, a), MaxProjection(n, a), MinProjection(n, b), MaxProjection(n, b))
  }

  /** The overlap test on world points: no edge axis of `a` separates `a` from `b`.
      The edges of `b` are never used as axes. */
  predicate SatOverlap(a: seq<Vec2>, b: seq<Vec2>)
  {
    forall i :: 0 <= i < |a| ==> !AxisSeparates(EdgeAxis(a, i), a, b)
  }

  /** Every point of `a` projects onto `n` strictly before every point of `b`. */
  ghost predicate StrictlyBefore(n: Vec2, a: seq<Vec2>, b: seq<Vec2>)
  {
    forall p, q :: p in a && q in b ==> Project(n, p) < Project(n, q)
  }

  /** The minimum accumulator is set exactly when there are points; it is then a lower bound
      of every projection and is attained by one of them. */
  lemma {:induction false} MinProjectionIsLeast(n: Vec2, ps: seq<Vec2>)
    ensures MinProjection(n, ps).Some? <==> |ps| > 0
    ensures MinProjection(n, ps).Some? ==>
              (forall p :: p in ps ==> MinProjection(n, ps).value <= Project(n, p)) &&
              (exists p :: p in ps && Project(n, p) == MinProjection(n, ps).value)
  {
    if ps != [] {
      var init := ps[..|ps| - 1];
      MinProjectionIsLeast(n, init);
      assert ps == init + [ps[|ps| - 1]];
    }
  }

  /** The maximum accumulator is set exactly when there are points; it is then an upper bound
      of every projection and is attained by one of them. */
  lemma {:induction false} MaxProjectionIsGreatest(n: Vec2, ps: seq<Vec2>)
    ensures MaxProjection(n, ps).Some? <==> |ps| > 0
    ensures MaxProjection(n, ps).Some? ==>
              (forall p :: p in ps ==> Project(n, p) <= MaxProjection(n, ps).value) &&
              (exists p :: p in ps && Project(n, p) == MaxProjection(n, ps).value)
  {
    if ps != [] {
      var init := ps[..|ps| - 1];
      MaxProjectionIsGreatest(n, init);
      assert ps == init + [ps[|ps| - 1]];
    }
  }

  /** For a non-empty `a`, an axis separates exactly when `b` is empty or one shape's
      projections all lie strictly before the other's. Equal end points do not separate. */
  lemma AxisSeparatesMeaning(n: Vec2, a: seq<Vec2>, b: seq<Vec2>)
    requires |a| > 0
    ensures AxisSeparates(n, a, b) <==> |b| == 0 || StrictlyBefore(n, a, b) || StrictlyBefore(n, b, a)
  {
    MinProjectionIsLeast(n, a);
    MaxProjectionIsGreatest(n, a);
    MinProjectionIsLeast(n, b);
    MaxProjectionIsGreatest(n, b);
    if |b| > 0 {
      var aMin, aMax := MinProjection(n, a).value, MaxProjection(n, a).value;
      var bMin, bMax := MinProjection(n, b).value, MaxProjection(n, b).value;
      var pa :| pa in a && Project(n, pa) == aMax;
      var qb :| qb in b && Project(n, qb) == bMin;
      var pb :| pb in b && Project(n, pb) == bMax;
      var qa :| qa in a && Project(n, qa) == aMin;
      if StrictlyBefore(n, a, b) {
        assert aMax < bMin;
      }
      if StrictlyBefore(n, b, a) {
        assert bMax < aMin;
      }
    }
  }

  /** The overlap test in terms of the points themselves: with no points in `a` it holds;
      otherwise it holds exactly when `b` has points and on every edge axis of `a` neither
      shape lies strictly before the other. */
  lemma SatOverlapMeaning(a: seq<Vec2>, b: seq<Vec2>)
    ensures SatOverlap(a, b) <==>
              |a| == 0 ||
              (|b| > 0 &&
               forall i :: 0 <= i < |a| ==>
                 !StrictlyBefore(EdgeAxis(a, i), a, b) && !StrictlyBefore(EdgeAxis(a, i), b, a))
  {
    if |a| > 0 {
      forall i | 0 <= i < |a|
        ensures AxisSeparates(EdgeAxis(a, i), a, b) <==>
                  |b| == 0 || StrictlyBefore(EdgeAxis(a, i), a, b) || StrictlyBefore(EdgeAxis(a, i), b, a)
      {
        AxisSeparatesMeaning(EdgeAxis(a, i), a, b);
      }
      if |b| == 0 {
        assert !AxisSeparates(EdgeAxis(a, 0), a, b) ==> false;
      }
    }
  }

  /** Edge cases of the loop bounds: a shape without points overlaps everything, and a shape
      with points never overlaps a shape without points. */
  lemma EmptyShapes(a: seq<Vec2>, b: seq<Vec2>)
    ensures |a| == 0 ==> SatOverlap(a, b)
    ensures |a| > 0 && |b| == 0 ==> !SatOverlap(a, b)
  {
    if |a| > 0 && |b| == 0 {
      assert AxisSeparates(EdgeAxis(a, 0), a, b);
    }
  }

  /** Touching is not separation: when the intervals of two non-empty shapes share an end
      point on `n`, the axis does not separate them. */
  lemma TouchingDoesNotSeparate(n: Vec2, a: seq<Vec2>, b: seq<Vec2>)
    requires |a| > 0 && |b| > 0
    requires MaxProjection(n, a) == MinProjection(n, b) || MaxProjection(n, b) == MinProjection(n, a)
    ensures !AxisSeparates(n, a, b)
  {
    MinProjectionIsLeast(n, a);
    MaxProjectionIsGreatest(n, a);
    MinProjectionIsLeast(n, b);
    MaxProjectionIsGreatest(n, b);
    var pa :| pa in a;
    var pb :| pb in b;
    assert Project(n, pa) <= MaxProjection(n, a).value;
    assert Project(n, pb) <= MaxProjection(n, b).value;
  }

  /** A one-point shape has a single degenerate edge whose axis is zero, so it overlaps every
      shape that has points. */
  lemma SinglePointOverlaps(a: seq<Vec2>, b: seq<Vec2>)
    requires |a| == 1 && |b| > 0
    ensures SatOverlap(a, b)
  {
    var n := EdgeAxis(a, 0);
    assert n == Vec2(0.0, 0.0);
    MinProjectionIsLeast(n, a);
    MaxProjectionIsGreatest(n, a);
    MinProjectionIsLeast(n, b);
    MaxProjectionIsGreatest(n, b);
    var pa :| pa in a && Project(n, pa) == MinProjection(n, a).value;
    var pb :| pb in b && Project(n, pb) == MaxProjection(n, b).value;
    var qa :| qa in a && Project(n, qa) == MaxProjection(n, a).value;
    var qb :| qb in b && Project(n, qb) == MinProjection(n, b).value;
  }

  /** One projection loop of Collider::intersecting: scans `points` front to back and keeps
      the smallest and largest projection onto `normal` in `Option` accumulators. */
  method ProjectionBounds(normal: Vec2, points: seq<Vec2>) returns (lo: Option<real>, hi: Option<real>)
    ensures lo == MinProjection(normal, points) && hi == MaxProjection(normal, points)
  {
    lo, hi := None, None;
    for j := 0 to |points|
      invariant lo == MinProjection(normal, points[..j])
      invariant hi == MaxProjection(normal, points[..j])
    {
      var projected := normal.x * points[j].x + normal.y * points[j].y;
      assert projected == Project(normal, points[j]);
      assert points[..j + 1][..j] == points[..j] && points[..j + 1][j] == points[j];
      if Below(lo, projected) {
        lo := Some(projected);
      }
      if Above(hi, projected) {
        hi := Some(projected);
      }
    }
    assert points[..|points|] == points;
  }

  /** Collider::intersecting: maps both point lists into the world, then for each edge of
      `a` projects all points of both shapes onto the edge normal and returns false as soon
      as one axis separates them; returns true when no edge of `a` does. */
  method Intersecting(a: Collider, transform: Matrix3, b: Collider, bTransform: Matrix3) returns (r: bool)
    ensures r == SatOverlap(ToWorld(a.points, transform), ToWorld(b.points, bTransform))
  {
    var aPoints := ToWorld(a.points, transform);
    var bPoints := ToWorld(b.points, bTransform);

    for i := 0 to |aPoints|
      invariant forall k :: 0 <= k < i ==> !AxisSeparates(EdgeAxis(aPoints, k), aPoints, bPoints)
    {
      var p1 := aPoints[i];
      var p2 := aPoints[(i + 1) % |aPoints|];
      var normal := Vec2(p2.y - p1.y, p1.x - p2.x);

      var aMin, aMax := ProjectionBounds(normal, aPoints);
      var bMin, bMax := ProjectionBounds(normal, bPoints);

      if Separated(aMin, aMax, bMin, bMax) {
        assert normal == EdgeAxis(aPoints, i);
        return false;
      }
    }
    return true;
  }
}
