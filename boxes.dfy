/** What the overlap test decides for two rectangles built by `Rect` and placed by a
    translation: exactly whether the two boxes overlap or touch. */
module Boxes {
  import opened Geometry
  import opened Collider

  /** The corners of the box centred on `c` with half sizes `h`, in the order `Rect` lists them. */
  function Corners(c: Vec2, h: Vec2): seq<Vec2>
  {
    [Vec2(c.x - h.x, c.y - h.y), Vec2(c.x - h.x, c.y + h.y),
     Vec2(c.x + h.x, c.y + h.y), Vec2(c.x + h.x, c.y - h.y)]
  }

  /** Every point of `a` lies strictly left of every point of `b`. */
  ghost predicate LeftOf(a: seq<Vec2>, b: seq<Vec2>)
  {
    forall p, q :: p in a && q in b ==> p.x < q.x
  }

  /** Every point of `a` lies strictly below every point of `b`. */
  ghost predicate BelowOf(a: seq<Vec2>, b: seq<Vec2>)
  {
    forall p, q :: p in a && q in b ==> p.y < q.y
  }

  function Abs(r: real): real
  {
    if r < 0.0 then -r else r
  }

  /** A rectangle of size `dims` placed by a translation to `t` has its corners at `t` plus or
      minus half of `dims`. */
  lemma PlacedRect(dims: Vec2, t: Vec2, active: bool)
    ensures ToWorld(Rect(dims, active).points, Translation(t)) == Corners(t, Vec2(dims.x / 2.0, dims.y / 2.0))
  {
    var w := ToWorld(Rect(dims, active).points, Translation(t));
    forall k | 0 <= k < 4
      ensures w[k] == Corners(t, Vec2(dims.x / 2.0, dims.y / 2.0))[k]
    {
      ApplyTranslation(t, Rect(dims, active).points[k]);
    }
  }

  lemma ScaleKeepsOrder(k: real, x: real, y: real)
    requires k > 0.0
    ensures k * x < k * y <==> x < y
  {
    if x < y {
      assert k * y - k * x == k * (y - x);
    } else {
      assert k * x - k * y == k * (x - y);
    }
  }

  /** On an axis (k, 0) with k > 0, strictly before means strictly left of. */
  lemma HorizontalAxis(k: real, a: seq<Vec2>, b: seq<Vec2>)
    requires k > 0.0
    ensures StrictlyBefore(Vec2(k, 0.0), a, b) <==> LeftOf(a, b)
    ensures StrictlyBefore(Vec2(-k, 0.0), a, b) <==> LeftOf(b, a)
  {
    forall p, q | p in a && q in b
      ensures (Project(Vec2(k, 0.0), p) < Project(Vec2(k, 0.0), q)) <==> p.x < q.x
      ensures (Project(Vec2(-k, 0.0), p) < Project(Vec2(-k, 0.0), q)) <==> q.x < p.x
    {
      ScaleKeepsOrder(k, p.x, q.x);
      ScaleKeepsOrder(k, q.x, p.x);
    }
  }

  /** On an axis (0, k) with k > 0, strictly before means strictly below. */
  lemma VerticalAxis(k: real, a: seq<Vec2>, b: seq<Vec2>)
    requires k > 0.0
    ensures StrictlyBefore(Vec2(0.0, k), a, b) <==> BelowOf(a, b)
    ensures StrictlyBefore(Vec2(0.0, -k), a, b) <==> BelowOf(b, a)
  {
    forall p, q | p in a && q in b
      ensures (Project(Vec2(0.0, k), p) < Project(Vec2(0.0, k), q)) <==> p.y < q.y
      ensures (Project(Vec2(0.0, -k), p) < Project(Vec2(0.0, -k), q)) <==> q.y < p.y
    {
      ScaleKeepsOrder(k, p.y, q.y);
      ScaleKeepsOrder(k, q.y, p.y);
    }
  }

  /** One box lies strictly left of another exactly when its right side is left of the
      other's left side. */
  lemma CornersLeftOf(c1: Vec2, h1: Vec2, c2: Vec2, h2: Vec2)
    requires h1.x >= 0.0 && h1.y >= 0.0 && h2.x >= 0.0 && h2.y >= 0.0
    ensures LeftOf(Corners(c1, h1), Corners(c2, h2)) <==> c1.x + h1.x < c2.x - h2.x
    ensures BelowOf(Corners(c1, h1), Corners(c2, h2)) <==> c1.y + h1.y < c2.y - h2.y
  {
    var a, b := Corners(c1, h1), Corners(c2, h2);
    if LeftOf(a, b) {
      assert a[2] in a && b[0] in b;
    }
    if BelowOf(a, b) {
      assert a[2] in a && b[0] in b;
    }
  }

  /** The four edge axes of a box with positive half sizes: (2hy, 0), (0, -2hx), (-2hy, 0)
      and (0, 2hx), the last one closing the polygon. */
  lemma CornerAxes(c: Vec2, h: Vec2)
    ensures EdgeAxis(Corners(c, h), 0) == Vec2(2.0 * h.y, 0.0)
    ensures EdgeAxis(Corners(c, h), 1) == Vec2(0.0, -2.0 * h.x)
    ensures EdgeAxis(Corners(c, h), 2) == Vec2(-2.0 * h.y, 0.0)
    ensures EdgeAxis(Corners(c, h), 3) == Vec2(0.0, 2.0 * h.x)
  {
  }

  /** Neither shape lies strictly before the other on axis `n`. */
  ghost predicate AxisOverlaps(n: Vec2, a: seq<Vec2>, b: seq<Vec2>)
  {
    !StrictlyBefore(n, a, b) && !StrictlyBefore(n, b, a)
  }

  /** For a four-point shape the test is the conjunction over its four edge axes. */
  lemma FourAxes(a: seq<Vec2>, b: seq<Vec2>)
    requires |a| == 4 && |b| > 0
    ensures SatOverlap(a, b) <==>
              AxisOverlaps(EdgeAxis(a, 0), a, b) && AxisOverlaps(EdgeAxis(a, 1), a, b) &&
              AxisOverlaps(EdgeAxis(a, 2), a, b) && AxisOverlaps(EdgeAxis(a, 3), a, b)
  {
    SatOverlapMeaning(a, b);
  }

  /** On the axes (k, 0) and (-k, 0), k > 0, the shapes overlap exactly when neither lies
      wholly left of the other. */
  lemma HorizontalOverlap(k: real, a: seq<Vec2>, b: seq<Vec2>)
    requires k > 0.0
    ensures AxisOverlaps(Vec2(k, 0.0), a, b) <==> !LeftOf(a, b) && !LeftOf(b, a)
    ensures AxisOverlaps(Vec2(-k, 0.0), a, b) <==> !LeftOf(a, b) && !LeftOf(b, a)
  {
    HorizontalAxis(k, a, b);
    HorizontalAxis(k, b, a);
  }

  /** On the axes (0, k) and (0, -k), k > 0, the shapes overlap exactly when neither lies
      wholly below the other. */
  lemma VerticalOverlap(k: real, a: seq<Vec2>, b: seq<Vec2>)
    requires k > 0.0
    ensures AxisOverlaps(Vec2(0.0, k), a, b) <==> !BelowOf(a, b) && !BelowOf(b, a)
    ensures AxisOverlaps(Vec2(0.0, -k), a, b) <==> !BelowOf(a, b) && !BelowOf(b, a)
  {
    VerticalAxis(k, a, b);
    VerticalAxis(k, b, a);
  }

  /** A four-point shape whose edge axes point right, down, left and up: the test is true
      exactly when the other shape is neither wholly left, right, below nor above it. */
  lemma AxisAlignedAgainst(a: seq<Vec2>, b: seq<Vec2>, kx: real, ky: real)
    requires |a| == 4 && |b| > 0 && kx > 0.0 && ky > 0.0
    requires EdgeAxis(a, 0) == Vec2(ky, 0.0) && EdgeAxis(a, 1) == Vec2(0.0, -kx)
    requires EdgeAxis(a, 2) == Vec2(-ky, 0.0) && EdgeAxis(a, 3) == Vec2(0.0, kx)
    ensures SatOverlap(a, b) <==> !LeftOf(a, b) && !LeftOf(b, a) && !BelowOf(a, b) && !BelowOf(b, a)
  {
    FourAxes(a, b);
    HorizontalOverlap(ky, a, b);
    VerticalOverlap(kx, a, b);
  }

  /** The overlap test on two boxes: they overlap exactly when the centres are no further
      apart than the sum of the half sizes on both axes. Equality (touching) counts. */
  lemma CornersOverlap(c1: Vec2, h1: Vec2, c2: Vec2, h2: Vec2)
    requires h1.x > 0.0 && h1.y > 0.0 && h2.x >= 0.0 && h2.y >= 0.0
    ensures SatOverlap(Corners(c1, h1), Corners(c2, h2)) <==>
              Abs(c1.x - c2.x) <= h1.x + h2.x && Abs(c1.y - c2.y) <= h1.y + h2.y
  {
    CornerAxes(c1, h1);
    AxisAlignedAgainst(Corners(c1, h1), Corners(c2, h2), 2.0 * h1.x, 2.0 * h1.y);
    CornersLeftOf(c1, h1, c2, h2);
    CornersLeftOf(c2, h2, c1, h1);
  }

  /** Collider::intersecting on two rectangles made by `rect` and placed by translations to
      `t1` and `t2`: true exactly when the boxes overlap or touch. */
  lemma RectOverlap(d1: Vec2, t1: Vec2, d2: Vec2, t2: Vec2, active1: bool, active2: bool)
    requires d1.x > 0.0 && d1.y > 0.0 && d2.x >= 0.0 && d2.y >= 0.0
    ensures SatOverlap(ToWorld(Rect(d1, active1).points, Translation(t1)),
                       ToWorld(Rect(d2, active2).points, Translation(t2))) <==>
              2.0 * Abs(t1.x - t2.x) <= d1.x + d2.x && 2.0 * Abs(t1.y - t2.y) <= d1.y + d2.y
  {
    PlacedRect(d1, t1, active1);
    PlacedRect(d2, t2, active2);
    CornersOverlap(t1, Vec2(d1.x / 2.0, d1.y / 2.0), t2, Vec2(d2.x / 2.0, d2.y / 2.0));
  }

  /** For two such rectangles the one-sided test gives the same answer in both directions. */
  lemma RectOverlapSymmetric(d1: Vec2, t1: Vec2, d2: Vec2, t2: Vec2)
    requires d1.x > 0.0 && d1.y > 0.0 && d2.x > 0.0 && d2.y > 0.0
    ensures SatOverlap(ToWorld(Rect(d1, true).points, Translation(t1)),
                       ToWorld(Rect(d2, true).points, Translation(t2))) ==
            SatOverlap(ToWorld(Rect(d2, true).points, Translation(t2)),
                       ToWorld(Rect(d1, true).points, Translation(t1)))
  {
    RectOverlap(d1, t1, d2, t2, true, true);
    RectOverlap(d2, t2, d1, t1, true, true);
  }

  /** A four-point shape with two zero edge axes between axes pointing right and left: only
      the horizontal axes can separate, so the test is true exactly when neither shape lies
      wholly left of the other. */
  lemma HorizontalOnlyAgainst(a: seq<Vec2>, b: seq<Vec2>, k: real)
    requires |a| == 4 && |b| > 0 && k > 0.0
    requires EdgeAxis(a, 0) == Vec2(k, 0.0) && EdgeAxis(a, 1) == Vec2(0.0, 0.0)
    requires EdgeAxis(a, 2) == Vec2(-k, 0.0) && EdgeAxis(a, 3) == Vec2(0.0, 0.0)
    ensures SatOverlap(a, b) <==> !LeftOf(a, b) && !LeftOf(b, a)
  {
    FourAxes(a, b);
    HorizontalOverlap(k, a, b);
    assert Project(Vec2(0.0, 0.0), a[0]) == Project(Vec2(0.0, 0.0), b[0]);
    assert AxisOverlaps(Vec2(0.0, 0.0), a, b);
  }

  /** A first box of zero width is tried only on its horizontal axes: it overlaps every box
      whose x range meets its own, however far apart the two are vertically. */
  lemma ZeroWidthCorners(c1: Vec2, k: real, c2: Vec2, h2: Vec2)
    requires k > 0.0 && h2.x >= 0.0 && h2.y >= 0.0
    ensures SatOverlap(Corners(c1, Vec2(0.0, k)), Corners(c2, h2)) <==> Abs(c1.x - c2.x) <= h2.x
  {
    CornerAxes(c1, Vec2(0.0, k));
    HorizontalOnlyAgainst(Corners(c1, Vec2(0.0, k)), Corners(c2, h2), 2.0 * k);
    CornersLeftOf(c1, Vec2(0.0, k), c2, h2);
    CornersLeftOf(c2, h2, c1, Vec2(0.0, k));
  }

  /** `rect` with zero width, placed by a translation, against any placed rect: true exactly
      when the x ranges meet, whatever the vertical distance. */
  lemma ZeroWidthRect(h: real, t1: Vec2, d2: Vec2, t2: Vec2, active1: bool, active2: bool)
    requires h > 0.0 && d2.x >= 0.0 && d2.y >= 0.0
    ensures SatOverlap(ToWorld(Rect(Vec2(0.0, h), active1).points, Translation(t1)),
                       ToWorld(Rect(d2, active2).points, Translation(t2))) <==>
              2.0 * Abs(t1.x - t2.x) <= d2.x
  {
    PlacedRect(Vec2(0.0, h), t1, active1);
    PlacedRect(d2, t2, active2);
    assert Vec2(0.0 / 2.0, h / 2.0) == Vec2(0.0, h / 2.0);
    ZeroWidthCorners(t1, h / 2.0, t2, Vec2(d2.x / 2.0, d2.y / 2.0));
  }

  /** A zero-width rect and a unit square five units above it are reported as intersecting. */
  lemma ZeroWidthFarApart()
    ensures SatOverlap(ToWorld(Rect(Vec2(0.0, 1.0), true).points, Translation(Vec2(0.0, 0.0))),
                       ToWorld(Rect(Vec2(1.0, 1.0), true).points, Translation(Vec2(0.0, 5.0))))
  {
    var t1, d2, t2 := Vec2(0.0, 0.0), Vec2(1.0, 1.0), Vec2(0.0, 5.0);
    assert 2.0 * Abs(t1.x - t2.x) <= d2.x;
    ZeroWidthRect(1.0, t1, d2, t2, true, true);
  }

  /** Unit squares centred half a unit apart overlap. */
  lemma UnitSquaresOverlapping()
    ensures SatOverlap(ToWorld(Rect(Vec2(1.0, 1.0), true).points, Translation(Vec2(0.0, 0.0))),
                       ToWorld(Rect(Vec2(1.0, 1.0), true).points, Translation(Vec2(0.5, 0.0))))
  {
    RectOverlap(Vec2(1.0, 1.0), Vec2(0.0, 0.0), Vec2(1.0, 1.0), Vec2(0.5, 0.0), true, true);
  }

  /** Unit squares centred two units apart do not overlap. */
  lemma UnitSquaresApart()
    ensures !SatOverlap(ToWorld(Rect(Vec2(1.0, 1.0), true).points, Translation(Vec2(0.0, 0.0))),
                        ToWorld(Rect(Vec2(1.0, 1.0), true).points, Translation(Vec2(2.0, 0.0))))
  {
    RectOverlap(Vec2(1.0, 1.0), Vec2(0.0, 0.0), Vec2(1.0, 1.0), Vec2(2.0, 0.0), true, true);
  }

  /** Unit squares centred one unit apart share an edge, and the test reports them as
      intersecting. */
  lemma UnitSquaresTouching()
    ensures SatOverlap(ToWorld(Rect(Vec2(1.0, 1.0), true).points, Translation(Vec2(0.0, 0.0))),
                       ToWorld(Rect(Vec2(1.0, 1.0), true).points, Translation(Vec2(1.0, 0.0))))
  {
    RectOverlap(Vec2(1.0, 1.0), Vec2(0.0, 0.0), Vec2(1.0, 1.0), Vec2(1.0, 0.0), true, true);
  }
}
