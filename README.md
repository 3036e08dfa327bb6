# hex_physics collision pass, modelled in Dafny

This project models the collision core of the hex_physics engine. It has two parts.

- **Overlap test.** `Collider::intersecting` is a separating-axis test between two polygons. Both point lists are first mapped into world space by their transforms. For every edge of the first polygon, the test takes the edge normal as an axis and projects every point of both polygons onto it, keeping running minima and maxima in `Option` accumulators. It returns `false` at the first axis on which one shape lies strictly before the other, and `true` otherwise. The constructors `Collider::new` and `Collider::rect` are modelled too.
- **Pair loop.** `PhysicsManager::update` runs the per-frame collision pass. It collects the entities that have both a polygon and a transform. It then pops the last candidate and tests it against every candidate still in the list, recording two callbacks for every pair that intersects. Finally it invokes the callbacks in order.

Files:

- `geometry.dfy`: plane vectors, the 3x3 homogeneous matrix that places a shape, projection and edge normals.
- `collider.dfy`: the `Collider` record and its constructors. `Intersecting` is a method with the source's three loops and its early return. It is proved equal to the specification predicate `SatOverlap`, and lemmas about `SatOverlap` state what it means in terms of the points.
- `boxes.dfy`: what the test decides for rectangles made by `rect` and placed by translations.
- `one_sided.dfy`: the consequence of trying only the first polygon's axes (see Findings), and the two-sided test.
- `physics_manager.dfy`: candidate collection, the pop-and-scan pair loop proved against an index-pair specification, and the invocation loop.
- `scene.dfy`: the pair loop run with a polygon test that works like `Collider::intersecting`. The polygon type the loop actually calls is not part of this model. If its test is the same one-sided test, the iteration order decides the outcome.

Coordinates are exact reals. The transform is given as its matrix. The pair loop takes the polygon test and the callback as parameters.

The model follows the code where it departs from a textbook collision test:

- Touching shapes count as intersecting, because the comparisons are strict `<`.
- Only the first polygon's edges are tried as axes. A full separating-axis test on two convex polygons uses the edge normals of both.
- Nothing checks for polygons with fewer than three points. Empty and one-point shapes get the defined results stated by `Collider.EmptyShapes` and `Collider.SinglePointOverlaps`. A rect of zero width gets the result stated by `Boxes.ZeroWidthRect`.
- The code computes no correction vector.

## Model

| member | source | states |
|---|---|---|
| Geometry.ApplyTranslation | src/collider.rs:38 | extending a point to (x, y, 1), multiplying by a translation matrix and truncating adds the offset to the point |
| Geometry.EdgeNormalIsPerpendicular | src/collider.rs:51 | the normal (p2.y - p1.y, p1.x - p2.x) gives both end points of its edge the same projection, and it is zero exactly when the edge is degenerate |
| Collider.New | src/collider.rs:11-17 | the collider keeps the given points and active flag and starts with no recorded collisions |
| Collider.Rect | src/collider.rs:19-31 | four points (-w/2, -h/2), (-w/2, h/2), (w/2, h/2), (w/2, -h/2) in that order, the given active flag, no collisions |
| Collider.ToWorld | src/collider.rs:34-45 | the world point list has one point per local point, each mapped through the matrix |
| Collider.MinProjectionIsLeast | src/collider.rs:53-66 | the minimum accumulator is Some exactly when there are points; it is then at most every projection and equals one of them |
| Collider.MaxProjectionIsGreatest | src/collider.rs:53-66 | the maximum accumulator is Some exactly when there are points; it is then at least every projection and equals one of them |
| Collider.ProjectionBounds | src/collider.rs:53-81 | one projection loop leaves the accumulators at the least and greatest projection (None for no points) |
| Collider.AxisSeparatesMeaning | src/collider.rs:83-87 | for a non-empty first shape, an axis separates exactly when the second shape is empty or one shape's projections all lie strictly before the other's |
| Collider.SatOverlapMeaning | src/collider.rs:47-90 | the test is true exactly when the first shape is empty, or the second has points and on no edge axis of the first shape does one shape lie strictly before the other |
| Collider.Intersecting | src/collider.rs:33-91 | the method's result is the separating-axis test on the world points, with edges i -> (i + 1) % n of the first shape only |
| Collider.EmptyShapes | src/collider.rs:47-90 | no points in the first shape gives true; points in the first shape and none in the second give false |
| Collider.TouchingDoesNotSeparate | src/collider.rs:83-84 | intervals that share an end point on an axis do not separate the shapes |
| Collider.SinglePointOverlaps | src/collider.rs:47-51 | a one-point shape has the zero axis and overlaps every shape with points |
| Boxes.PlacedRect | src/collider.rs:19-45 | a rect placed by a translation has its corners at the offset plus or minus half its size |
| Boxes.CornersOverlap | src/collider.rs:47-90 | for a first box with positive half sizes, the test on two axis-aligned boxes holds exactly when the centres are within the sum of the half sizes on both axes |
| Boxes.RectOverlap | src/collider.rs:19-91 | for a first rect of positive width and height and a second of non-negative size, two translated rects intersect exactly when 2 abs(dx) <= w1 + w2 and 2 abs(dy) <= h1 + h2, touching included |
| Boxes.RectOverlapSymmetric | src/collider.rs:19-91 | for two rects of positive size the test gives the same answer whichever comes first |
| Boxes.ZeroWidthCorners | src/collider.rs:47-90 | a first box of zero width and positive height is tried only on its horizontal axes: the test holds exactly when the x ranges meet |
| Boxes.ZeroWidthRect | src/collider.rs:19-91 | a zero-width rect against a placed rect is reported as intersecting exactly when 2 abs(dx) <= w2, whatever the vertical distance |
| Boxes.ZeroWidthFarApart | src/collider.rs:47-51 | a zero-width rect and a unit square five units above it are reported as intersecting |
| Boxes.UnitSquaresOverlapping | src/collider.rs:33-91 | unit squares half a unit apart intersect |
| Boxes.UnitSquaresApart | src/collider.rs:33-91 | unit squares two units apart do not intersect |
| Boxes.UnitSquaresTouching | src/collider.rs:83-84 | unit squares one unit apart, sharing an edge, are reported as intersecting |
| OneSided.OneSidedFalsePositive | src/collider.rs:47-90 | the unit square's own axes do not separate it from a triangle beyond its corner, although the axis (1, 1) puts the square strictly before it |
| OneSided.BothWaysRejectsWedge | src/collider.rs:47-90 | the two-sided test rejects the same pair: the triangle's first edge axis separates them |
| OneSided.BothWaysMeaning | src/collider.rs:47-90 | the two-sided test is symmetric and fails exactly when some edge axis of either shape puts one shape strictly before the other |
| PhysicsManager.Candidates | src/physics_manager.rs:24-34 | there are no more candidates than entities, and each carries the polygon and transform stored for its entity |
| PhysicsManager.CandidatesMembers | src/physics_manager.rs:24-34 | an entity is a candidate exactly when it is listed and has both a polygon and a transform |
| PhysicsManager.CandidatesDistinct | src/physics_manager.rs:24-34 | distinct entity ids give candidates with distinct ids |
| PhysicsManager.TestOrderExactlyOnce | src/physics_manager.rs:38-39 | the loop tests (b, a) exactly when a < b, each such pair once and never an object against itself, n(n - 1)/2 tests in all |
| PhysicsManager.EmitIsRecordsOfHits | src/physics_manager.rs:38-47 | records 2k and 2k + 1 are the two records of the k-th intersecting pair in test order, and nothing else is recorded |
| PhysicsManager.HitsMembers | src/physics_manager.rs:38-47 | a pair is recorded exactly when it is tested and intersects, and no pair is recorded twice |
| PhysicsManager.EmitLength | src/physics_manager.rs:40-45 | two records per intersecting pair |
| PhysicsManager.CallbackCount | src/physics_manager.rs:36-49 | the number of records is twice the number of intersecting unordered pairs |
| PhysicsManager.RecordPair | src/physics_manager.rs:40-45 | the k-th intersecting pair (b, a) has a < b and gives (b, a, b's callback) followed by (a, b, a's callback) |
| PhysicsManager.RecordPairMirror | src/physics_manager.rs:41-44 | with distinct ids the two records of a pair name different entities and mirror each other |
| PhysicsManager.RecordsSymmetric | src/physics_manager.rs:41-44 | with distinct ids no record pairs an entity with itself, and every even record is followed by its mirror image |
| PhysicsManager.RecordsOfHit | src/physics_manager.rs:38-45 | a later candidate that intersects an earlier one gets a record in each direction |
| PhysicsManager.HitOfRecord | src/physics_manager.rs:38-45 | every record names two candidates, the later of which intersects the earlier under the test |
| PhysicsManager.RecordedExactly | src/physics_manager.rs:38-45 | a record names e hitting o exactly when a later and an earlier candidate with ids e and o, in either order, intersect with the later one tested first |
| PhysicsManager.TestPopped | src/physics_manager.rs:39-46 | the scan of the remaining objects records the pairs of the popped object that intersect, front to back |
| PhysicsManager.CollectCallbacks | src/physics_manager.rs:36-49 | the pop-and-scan loop terminates and gathers the records of the specified test order |
| PhysicsManager.Dispatch | src/physics_manager.rs:52-54 | callbacks run in order and each one run could be borrowed; the pass succeeds exactly when every callback can be borrowed, and otherwise stops right before the first one that cannot |
| PhysicsManager.Update | src/physics_manager.rs:23-56 | all records are gathered before any callback runs; the callbacks invoked are a prefix of the gathered records, each of which could be borrowed; on success that is all of them, and on failure the next record cannot be borrowed |
| Scene.TwoObjects | src/physics_manager.rs:38-45 | with two candidates only the second is tested against the first |
| Scene.IterationOrderDecides | src/physics_manager.rs:38-45 | if the polygon test is the one-sided test, the square and the triangle give two records when the store yields the triangle first and none when it yields the square first |
| Scene.BothWaysRecorded | src/physics_manager.rs:38-45 | with the two-sided test and any number of candidates, e's callback is gathered for hitting o exactly when candidates with those ids intersect, whatever their positions in the list |

## Left out

- Boxes.RectOverlap: says nothing for rects with negative dimensions, and for a zero-size first rect only the zero-width case is stated (`Boxes.ZeroWidthRect`); such rects list their corners in another order or have degenerate edges.
- Single-precision floats: coordinates are exact reals, so rounding near touching or separating configurations is not modelled.
- `Transform::matrix`: the transform is given as its 3x3 matrix. The cgmath homogeneous multiply is written out as an affine map.
- The `Component` registration of `Collider` and its `cid!` identifier.
- The entity and component stores: the entity list is a sequence in the store's iteration order, and the polygon and transform components are two maps keyed by entity id.
- The display and event arguments of `update`, which the pass does not use.
- The polygon type the pass calls: its overlap test and its callback are the parameters `intersects` and `handler`. The polygon source is not part of this model.
- What a callback does when invoked: `Dispatch` records which callbacks run, and whether one cannot be borrowed is the parameter `borrowable`.
- A spatial index, layer and ignore filtering, ghost colliders, correction vectors and sub-stepping do not appear in this code, so they are not modelled.

## Findings

| source | as written | input that shows it | evidently intended | confidence | as-written member | corrected member |
|---|---|---|---|---|---|---|
| src/collider.rs:47-90 | only the edge normals of the first polygon are tried as separating axes | the unit square (0, 0)-(1, 1) as the first polygon and the triangle (1.5, 0.9), (0.9, 1.5), (1.5, 1.5) as the second: reported as intersecting, though the line x + y = 2.4 separates them; if the polygon type's test is the same one-sided test, the pair loop's outcome then depends on the store's iteration order | try the edge normals of both polygons, so that convex shapes are reported as intersecting only when no line separates them | not executed | OneSided.OneSidedFalsePositive | OneSided.BothWaysRejectsWedge |

The pair loop takes its test as a parameter, and the polygon type it calls is not part of this model. `Scene.IterationOrderDecides` shows what the one-sided test would do there. `Scene.BothWaysRecorded` shows that with the two-sided test the gathered callbacks no longer depend on the order of the candidates.
