/** Collider::intersecting tries only the edge normals of its own shape. For two convex
    polygons the separating-axis theorem needs the edge normals of both, so the one-sided test
    can report an intersection for shapes that a line separates. This module exhibits such a
    pair and states the two-sided test that the theorem calls for. */
module OneSided {
  import opened Geometry
  import opened Collider
  import opened Boxes

  /** The two-sided test: no edge axis of either shape separates them. */
  predicate SatOverlapBothWays(a: seq<Vec2>, b: seq<Vec2>)
  {
    SatOverlap(a, b) && SatOverlap(b, a)
  }

  /** The unit square with corners (0, 0) and (1, 1), as `Rect` lists them. */
  function UnitSquare(): seq<Vec2>
  {
    Corners(Vec2(0.5, 0.5), Vec2(0.5, 0.5))
  }

  /** A triangle beyond the square's top-right corner, cut off from it by the line x + y = 2.4. */
  function Wedge(): seq<Vec2>
  {
    [Vec2(1.5, 0.9), Vec2(0.9, 1.5), Vec2(1.5, 1.5)]
  }

  /** The wedge is neither wholly left, right, below nor above the square. */
  lemma WedgeMeetsSquareRanges()
    ensures !LeftOf(UnitSquare(), Wedge()) && !LeftOf(Wedge(), UnitSquare())
    ensures !BelowOf(UnitSquare(), Wedge()) && !BelowOf(Wedge(), UnitSquare())
  {
    var a, b := UnitSquare(), Wedge();
    assert a[2] in a && b[1] in b && b[0] in b && a[0] in a;
  }

  /** The line x + y = 2.4 lies between the square and the wedge. */
  lemma WedgeBeyondSquare()
    ensures StrictlyBefore(Vec2(1.0, 1.0), UnitSquare(), Wedge())
  {
    var a, b := UnitSquare(), Wedge();
    forall p, q | p in a && q in b
      ensures Project(Vec2(1.0, 1.0), p) < Project(Vec2(1.0, 1.0), q)
    {
      var i :| 0 <= i < 4 && a[i] == p;
      var j :| 0 <= j < 3 && b[j] == q;
      assert p.x + p.y <= 2.0;
      assert q.x + q.y >= 2.4;
    }
  }

  /** As written: the square's own axes do not separate it from the wedge, so the test
      reports an intersection, although on the axis (1, 1) the square lies strictly before the
      wedge. */
  lemma OneSidedFalsePositive()
    ensures SatOverlap(UnitSquare(), Wedge())
    ensures StrictlyBefore(Vec2(1.0, 1.0), UnitSquare(), Wedge())
  {
    CornerAxes(Vec2(0.5, 0.5), Vec2(0.5, 0.5));
    AxisAlignedAgainst(UnitSquare(), Wedge(), 1.0, 1.0);
    WedgeMeetsSquareRanges();
    WedgeBeyondSquare();
  }

  /** Scaling an axis by a positive factor keeps one shape strictly before the other. */
  lemma ScaledAxis(k: real, n: Vec2, a: seq<Vec2>, b: seq<Vec2>)
    requires k > 0.0 && StrictlyBefore(n, a, b)
    ensures StrictlyBefore(Vec2(k * n.x, k * n.y), a, b)
  {
    forall p, q | p in a && q in b
      ensures Project(Vec2(k * n.x, k * n.y), p) < Project(Vec2(k * n.x, k * n.y), q)
    {
      assert Project(Vec2(k * n.x, k * n.y), p) == k * Project(n, p);
      assert Project(Vec2(k * n.x, k * n.y), q) == k * Project(n, q);
      ScaleKeepsOrder(k, Project(n, p), Project(n, q));
    }
  }

  /** The wedge's first edge, from (1.5, 0.9) to (0.9, 1.5), has the axis (0.6, 0.6). */
  lemma WedgeFirstAxis()
    ensures EdgeAxis(Wedge(), 0) == Vec2(0.6, 0.6)
  {
  }

  /** Corrected: the wedge's first edge gives the axis (0.6, 0.6), which separates the two
      shapes, so the two-sided test reports no intersection. */
  lemma BothWaysRejectsWedge()
    ensures !SatOverlapBothWays(UnitSquare(), Wedge())
  {
    var a, b := UnitSquare(), Wedge();
    WedgeBeyondSquare();
    ScaledAxis(0.6, Vec2(1.0, 1.0), a, b);
    WedgeFirstAxis();
    AxisSeparatesMeaning(EdgeAxis(b, 0), b, a);
  }

  /** The two-sided test is symmetric, and for shapes with points it is false exactly when an
      edge axis of one of them puts one shape strictly before the other. */
  lemma BothWaysMeaning(a: seq<Vec2>, b: seq<Vec2>)
    requires |a| > 0 && |b| > 0
    ensures SatOverlapBothWays(a, b) == SatOverlapBothWays(b, a)
    ensures !SatOverlapBothWays(a, b) <==>
              (exists i :: 0 <= i < |a| &&
                 (StrictlyBefore(EdgeAxis(a, i), a, b) || StrictlyBefore(EdgeAxis(a, i), b, a))) ||
              (exists j :: 0 <= j < |b| &&
                 (StrictlyBefore(EdgeAxis(b, j), a, b) || StrictlyBefore(EdgeAxis(b, j), b, a)))
  {
    SatOverlapMeaning(a, b);
    SatOverlapMeaning(b, a);
  }
}
