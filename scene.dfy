/** The collision pass run with a polygon test that works like Collider::intersecting (the
    polygon type the pass calls is not part of this model). The pass hands the test the popped
    object, the one later in iteration order, as the shape whose edge normals are tried. With
    that one-sided test the same two entities can produce callbacks or none, depending only on
    the order in which the entity store yields them. */
module Scene {
  import opened Geometry
  import opened Collider
  import opened OneSided
  import opened PhysicsManager

  /** Collider::intersecting as a test on (polygon, transform) pairs; the `Intersecting` method
      computes it. */
  predicate ColliderTest(a: Collider, at: Matrix3, b: Collider, bt: Matrix3)
  {
    SatOverlap(ToWorld(a.points, at), ToWorld(b.points, bt))
  }

  /** Placing points with the zero translation leaves them where they are. */
  lemma StayPut(points: seq<Vec2>)
    ensures ToWorld(points, Translation(Vec2(0.0, 0.0))) == points
  {
    var world := ToWorld(points, Translation(Vec2(0.0, 0.0)));
    forall k | 0 <= k < |points| ensures world[k] == points[k] {
      ApplyTranslation(Vec2(0.0, 0.0), points[k]);
    }
  }

  /** Two candidates: the pass tests only (1, 0), the second against the first. */
  lemma TwoObjects<S, T, C>(objects: seq<Object<S, T>>, intersects: (S, T, S, T) -> bool, handler: S -> C)
    requires |objects| == 2
    ensures Emit(objects, TestOrder(2), intersects, handler) ==
            if Tested(objects, intersects, (1, 0)) then Records(objects, handler, (1, 0)) else []
  {
    assert TestOrder(2) == [(1, 0)] by {
      assert Row(1, 1) == [(1, 0)];
      assert TestOrder(1) == [] by { assert Row(0, 0) == []; }
    }
    assert [(1, 0)][..0] == [];
  }

  /** The unit square (entity 1) and the wedge (entity 2), both placed where they are listed. */
  function SquareObject(): Object<Collider, Matrix3>
  {
    Object(1, Collider(UnitSquare(), [], true), Translation(Vec2(0.0, 0.0)))
  }

  function WedgeObject(): Object<Collider, Matrix3>
  {
    Object(2, Collider(Wedge(), [], true), Translation(Vec2(0.0, 0.0)))
  }

  /** When the store yields the wedge first, the square is popped and tried on its own axes:
      the pass reports the pair and gathers both callbacks. When it yields the square first,
      the wedge is popped, its first edge separates the two, and nothing is gathered. */
  lemma IterationOrderDecides()
    ensures |Emit([WedgeObject(), SquareObject()], TestOrder(2), ColliderTest, (c: Collider) => 0)| == 2
    ensures Emit([SquareObject(), WedgeObject()], TestOrder(2), ColliderTest, (c: Collider) => 0) == []
  {
    StayPut(UnitSquare());
    StayPut(Wedge());
    OneSidedFalsePositive();
    BothWaysRejectsWedge();
    TwoObjects([WedgeObject(), SquareObject()], ColliderTest, (c: Collider) => 0);
    TwoObjects([SquareObject(), WedgeObject()], ColliderTest, (c: Collider) => 0);
  }

  /** The two-sided test the separating-axis theorem calls for. */
  predicate BothWaysTest(a: Collider, at: Matrix3, b: Collider, bt: Matrix3)
  {
    SatOverlapBothWays(ToWorld(a.points, at), ToWorld(b.points, bt))
  }

  /** Candidates at two different places in the list that intersect under the two-sided test,
      the first with id e and the second with id o. Which comes first in the list does not
      matter here. */
  ghost predicate MeetBothWays(objects: seq<Object<Collider, Matrix3>>, e: nat, o: nat)
  {
    exists i, j :: 0 <= i < |objects| && 0 <= j < |objects| && i != j &&
      objects[i].entity == e && objects[j].entity == o &&
      BothWaysTest(objects[i].shape, objects[i].transform, objects[j].shape, objects[j].transform)
  }

  /** With the two-sided test, for any number of candidates, e's callback is gathered for
      hitting o exactly when candidates with those ids intersect, whatever their positions, so
      the order in which the store yields entities no longer decides which callbacks run. */
  lemma BothWaysRecorded(objects: seq<Object<Collider, Matrix3>>)
    ensures forall e, o ::
              Recorded(Emit(objects, TestOrder(|objects|), BothWaysTest, (c: Collider) => 0), e, o) <==>
              MeetBothWays(objects, e, o)
  {
    RecordedExactly(objects, BothWaysTest, (c: Collider) => 0);
    forall e, o | MeetBothWays(objects, e, o) ensures HitBetween(objects, BothWaysTest, e, o) {
      var i, j :| 0 <= i < |objects| && 0 <= j < |objects| && i != j &&
        objects[i].entity == e && objects[j].entity == o &&
        BothWaysTest(objects[i].shape, objects[i].transform, objects[j].shape, objects[j].transform);
      if j < i {
        assert Tested(objects, BothWaysTest, (i, j));
      } else {
        assert Tested(objects, BothWaysTest, (j, i));
      }
    }
    forall e, o | HitBetween(objects, BothWaysTest, e, o) ensures MeetBothWays(objects, e, o) {
      var i, j :| 0 <= j < i < |objects| && Tested(objects, BothWaysTest, (i, j)) &&
        ((objects[i].entity == e && objects[j].entity == o) || (objects[i].entity == o && objects[j].entity == e));
      if objects[i].entity == e && objects[j].entity == o {
        assert BothWaysTest(objects[i].shape, objects[i].transform, objects[j].shape, objects[j].transform);
      } else {
        assert BothWaysTest(objects[j].shape, objects[j].transform, objects[i].shape, objects[i].transform);
      }
    }
  }
}
