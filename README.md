# BlobEngine collision geometry, collision registry and scene graph in Dafny

This project models three parts of BlobEngine, a C++ game engine, and proves properties of
the model.

- **Line-segment geometry** (`Line` in `src/Collision/Line.cpp`), in `geometry.dfy` and
  `raster.dfy`. It covers the closest point on a line, the intersection of two infinite
  lines, the overlap tests of a segment against another segment, a rectangle and a point,
  and the bounding-box cell cover `rasterize`. Coordinates are `real`. The degenerate
  branches of the source are kept. A zero determinant gives back the input point or the
  origin. A zero denominator in the segment test gives "no overlap", which is what the
  NaN and infinite quotients of the source compare to.
- **Collidable objects and their registry** (`CollisionDetector.hpp`), in
  `collision_detector.dfy`.
  - The five concrete kinds share one class, `CollidableObject`, tagged by `Kind`.
  - Its members are the type tag, the reaction (starting as `STOP`), the speed and the
    default hooks.
  - `Registry` holds the five static per-kind lists and the spatial hash. It is the state
    that each kind's constructor changes through `enableCollision` and its destructor
    through `disableCollision`.
  - `CollisionDetector` holds the `timeStoped` flag and `pause`/`unpause`.
  - The invariant `Registry.Valid` says each list holds only live objects of its own kind,
    each once. It also says each bucket of the hash holds only registered objects, each once.
- **Scene graph** (`Shape` and `Shape2D` in `src/Core/Shape.cpp`), in `shape.dfy`.
  - A node holds a transform, an optional mesh and an ordered list of child nodes, and
    these change in place.
  - `getDrawCallList` walks the graph. It is proved against the ghost functions
    `DrawCalls`/`ChildrenCalls`, and those are then proved to visit children before the
    node's own mesh, to carry the parent matrix into every request and to request one
    draw per mesh.
- `sequences.dfy` holds the list operations shared by the child list and the registry:
  `std::find`, and erase of the first match.

## Model

| member | source | states |
|---|---|---|
| Geometry.ClosestDetZero | src/Collision/Line.cpp:8-16 | the determinant `A1*A1 - -B1*B1` is zero exactly when the two endpoints coincide |
| Geometry.ClosestPointTo | src/Collision/Line.cpp:7-20 | for a zero-length segment the point itself is returned |
| Geometry.ClosestPointIsProjection | src/Collision/Line.cpp:8-19 | for a segment of nonzero length the result satisfies the line equation A1·x + B1·y = C1 and the perpendicular equation −B1·x + A1·y = C2 (it is on the line and the step from the point to it is orthogonal to the line) |
| Geometry.NormalEquations | src/Collision/Line.cpp:11-19 | the quotients computed by Cramer's rule solve both the line equation (C1) and the perpendicular equation (C2) |
| Geometry.ClosestPointIsNearest | src/Collision/Line.cpp:7-20 | the result is no farther from the point than any point of the infinite line |
| Geometry.GetIntersection | src/Collision/Line.cpp:22-34 | parallel directions (cross product 0) give the origin `{}` |
| Geometry.IntersectionOnBothLines | src/Collision/Line.cpp:22-34 | for non-parallel lines the result lies on both infinite lines |
| Geometry.IntersectionCrosses | src/Collision/Line.cpp:23-33 | the result solves both line equations in cross-product form |
| Geometry.OnLineByCross | src/Collision/Line.cpp:31-33 | the cross-product equation used by `getIntersection` holds exactly for the points of the line |
| Geometry.IntersectionUnique | src/Collision/Line.cpp:22-34 | for non-parallel lines the result is the only common point |
| Geometry.OverlapLine | src/Collision/Line.cpp:57-76 | a zero denominator (parallel or collinear segments) gives false |
| Geometry.CrossingParameters | src/Collision/Line.cpp:67-71 | uA and uB are the parameters at which the two lines meet |
| Geometry.CrossingParametersUnique | src/Collision/Line.cpp:67-71 | any common point of the two lines has parameters exactly uA and uB |
| Geometry.OverlapLineMeansMeet | src/Collision/Line.cpp:57-76 | with a nonzero denominator, true iff the two segments share a point (uA and uB both in [0, 1]) |
| Geometry.OverlapLineSound | src/Collision/Line.cpp:73-74 | a true answer means the segments share a point |
| Geometry.SharedEndpointOverlaps | src/Collision/Line.cpp:68-75 | non-parallel segments sharing any endpoint overlap |
| Geometry.SharedStartParameters | src/Collision/Line.cpp:68-73 | non-parallel segments with a common start point give uA = uB = 0 and overlap |
| Geometry.OverlapLineSymmetric | src/Collision/Line.cpp:57-76 | the test gives the same answer with the two segments swapped |
| Geometry.CollinearOverlapNotReported | src/Collision/Line.cpp:67-75 | collinear segments that share a stretch are reported as not overlapping |
| Geometry.EndToEndNotReported | src/Collision/Line.cpp:67-75 | parallel segments that meet end to end share a point yet are reported as not overlapping |
| Geometry.OverlapRectangle | src/Collision/Line.cpp:36-51 | an endpoint inside the rectangle gives true |
| Geometry.OverlapRectangleSound | src/Collision/Line.cpp:36-51 | for a rectangle of non-negative size, true means some point of the segment is in the closed rectangle, because the corners are center ± half-size |
| Geometry.EdgeOverlapInside | src/Collision/Line.cpp:46-48 | overlapping an edge between two points of the rectangle gives a segment point inside it |
| Geometry.SegmentInsideRect | src/Collision/Line.cpp:37-44 | every point of an edge between two corners lies in the rectangle |
| Geometry.CrossingSegmentOverlapsRectangle | src/Collision/Line.cpp:36-51 | a horizontal segment through the center with both endpoints outside is caught by the edge p2p3 |
| Geometry.OverlapPoint | src/Collision/Line.cpp:78-80 | always false |
| Geometry.PointOnSegmentNotReported | src/Collision/Line.cpp:78-80 | false even for points of the segment itself |
| Raster.Trunc | src/Collision/Line.cpp:86-97 | the `(int64_t)` cast rounds toward zero: below the value when it is non-negative, above it when it is negative, by less than 1 |
| Raster.TruncMonotone | src/Collision/Line.cpp:85-98 | the cast preserves order, so start ≤ end on each axis |
| Raster.Bounds | src/Collision/Line.cpp:84-98 | the loop bounds satisfy startx ≤ endx and starty ≤ endy |
| Raster.Rasterize | src/Collision/Line.cpp:82-105 | the two nested loops return exactly the cells of the box |
| Raster.RasterCellsMembership | src/Collision/Line.cpp:100-102 | a cell (i, j) is returned iff startx ≤ i ≤ endx and starty ≤ j ≤ endy |
| Raster.RasterCellsCount | src/Collision/Line.cpp:100-102 | the result has (endx − startx + 1)·(endy − starty + 1) cells |
| Raster.RasterizeExample | src/Collision/Line.cpp:82-105 | the segment (0,0)–(3,2) gives the 12 cells with x in [0,3] and y in [0,2] |
| Raster.RasterCellsSymmetric | src/Collision/Line.cpp:85-98 | the result does not depend on the order of the endpoints |
| Raster.RasterCoversNonNegative | src/Collision/Line.cpp:82-105 | with non-negative coordinates, the cell of every point of the segment is returned |
| Raster.TruncatedCoverMissesCell | src/Collision/Line.cpp:86-97 | with a negative coordinate, a cell the segment passes through is missing |
| Raster.FloorRasterCovers | src/Collision/Line.cpp:82-105 | with the bounds rounded down, the cell of every point of the segment is returned |
| Raster.FloorRasterAgreesOnNonNegative | src/Collision/Line.cpp:85-98 | rounding down changes nothing for non-negative coordinates |
| Collision.CollidableObject.constructor | include/Blob/Collision/CollisionDetector.hpp:35-48 | the type tag is the one given; the reaction starts as `STOP` and the speed as zero |
| Collision.CollidableObject.SetObjectType | include/Blob/Collision/CollisionDetector.hpp:31-33 | replaces only the type tag |
| Collision.CollidableObject.SetReaction | include/Blob/Collision/CollisionDetector.hpp:59-61 | replaces only the reaction |
| Collision.CollidableObject.Moove | include/Blob/Collision/CollisionDetector.hpp:70-72 | the default hook answers "keep moving" |
| Collision.CollidableObject.PreCollisionUpdate | include/Blob/Collision/CollisionDetector.hpp:78 | the default hook changes nothing |
| Collision.CollidableObject.PostCollisionUpdate | include/Blob/Collision/CollisionDetector.hpp:85 | the default hook changes nothing |
| Collision.CollidableObject.Hit | include/Blob/Collision/CollisionDetector.hpp:37 | the default hook changes nothing |
| Collision.KindLists.Set | include/Blob/Collision/CollisionDetector.hpp:198-202 | changing one kind's list leaves the other four unchanged |
| Collision.AddToBuckets | include/Blob/Collision/CollisionDetector.hpp:196 | registration creates buckets for exactly the new cells, appends the object at the end of the bucket of every covered cell keeping the earlier contents in order, and leaves every other bucket unchanged |
| Collision.RemoveFromBuckets | include/Blob/Collision/CollisionDetector.hpp:196 | unregistration keeps the set of buckets |
| Collision.EnablePreserves | include/Blob/Collision/CollisionDetector.hpp:99-101 | registering an unregistered live object keeps every list and bucket duplicate-free and consistent |
| Collision.DisablePreserves | include/Blob/Collision/CollisionDetector.hpp:103-105 | unregistering keeps the invariant and leaves the object in no list and no bucket |
| Collision.DestroyPreserves | include/Blob/Collision/CollisionDetector.hpp:103-105 | a destroyed object is never in a list |
| Collision.Registry.constructor | include/Blob/Collision/CollisionDetector.hpp:196-202 | the static lists and the hash start empty |
| Collision.Registry.SetList | include/Blob/Collision/CollisionDetector.hpp:198-202 | one kind's list is replaced; the other lists and the hash stay |
| Collision.Registry.EnableCollision | include/Blob/Collision/CollisionDetector.hpp:95 | appends the object to its own kind's list and to the buckets of its cells; the other four lists stay; keeps `Valid` |
| Collision.Registry.DisableCollision | include/Blob/Collision/CollisionDetector.hpp:97 | removes the object from its own kind's list and from every bucket; the other lists stay; keeps `Valid` |
| Collision.Registry.Construct | include/Blob/Collision/CollisionDetector.hpp:99-101 | a constructed object is fresh, has reaction `STOP` and is registered in its own list; the other lists and the record of destroyed objects are unchanged |
| Collision.Registry.Destruct | include/Blob/Collision/CollisionDetector.hpp:103-105 | a destroyed object is unregistered and joins the record of destroyed objects, which otherwise stays as it was, so it is never registered again |
| Collision.RegisteredOnce | include/Blob/Collision/CollisionDetector.hpp:91 | a live object occurs exactly once in its own kind's list and in no other list |
| Collision.DestroyedNowhere | include/Blob/Collision/CollisionDetector.hpp:103-105 | after destruction the object is in no list and no bucket |
| Collision.EnableThenDisable | include/Blob/Collision/CollisionDetector.hpp:119-125 | construction then destruction restores the kind's list and the existing buckets |
| Collision.CollisionDetector.constructor | include/Blob/Collision/CollisionDetector.hpp:206 | a detector starts unpaused |
| Collision.CollisionDetector.Pause | include/Blob/Collision/CollisionDetector.hpp:220 | sets the pause flag and changes nothing else |
| Collision.CollisionDetector.Unpause | include/Blob/Collision/CollisionDetector.hpp:222 | clears the pause flag and changes nothing else |
| Sequences.Find | src/Core/Shape.cpp:32 | `std::find`: the index of the first occurrence, or the length when there is none |
| Sequences.RemoveFirst | src/Core/Shape.cpp:31-41 | removing the first match shortens the list by one exactly when the element occurs, and adds no element |
| Sequences.RemoveFirstMultiset | src/Core/Shape.cpp:31-41 | exactly one copy of the element goes and nothing else |
| Sequences.RemoveFirstAt | src/Core/Shape.cpp:32-34 | erasing at the found position leaves everything before and after it, in order |
| Sequences.RemoveFirstAbsent | src/Core/Shape.cpp:33-34 | removing an absent element changes nothing |
| Sequences.RemoveFirstDistinct | include/Blob/Collision/CollisionDetector.hpp:198-202 | in a duplicate-free list, removal keeps it duplicate-free and removes every occurrence |
| Sequences.DistinctAppend | include/Blob/Collision/CollisionDetector.hpp:198-202 | appending a new element keeps a list duplicate-free |
| Sequences.DistinctCount | include/Blob/Collision/CollisionDetector.hpp:198-202 | in a duplicate-free list an element occurs at most once |
| Sequences.AppendThenRemove | src/Core/Shape.cpp:23-41 | adding a new child and then removing it gives the old list back |
| Scene.Shape.FromTransform | src/Core/Shape.cpp:6 | no mesh and no children |
| Scene.Shape.FromMesh | src/Core/Shape.cpp:8 | the given mesh, the default transform, no children |
| Scene.Shape.constructor | src/Core/Shape.cpp:10-11 | the given mesh and transform, no children |
| Scene.Shape.SetMesh | src/Core/Shape.cpp:13-18 | the mesh becomes the argument; children and transform stay |
| Scene.Shape.RemoveMesh | src/Core/Shape.cpp:19-21 | the mesh becomes null; children and transform stay |
| Scene.Shape.AddChild | src/Core/Shape.cpp:23-29 | the child goes at the end, with no de-duplication; the other children keep their order |
| Scene.Shape.RemoveChild | src/Core/Shape.cpp:31-41 | only the first occurrence goes; an absent child changes nothing |
| Scene.Shape.GetDrawCallList | src/Core/Shape.cpp:43-52 | appends exactly the requests `DrawCalls` gives: each child's, in order, under `transform * parent`, then the own mesh's if any |
| Scene.Mesh.GetDrawCallList | src/Core/Shape.cpp:50-51 | a mesh adds its request with the node's matrix |
| Scene.DrawCallList.constructor | src/Core/Shape.cpp:44 | the list starts empty |
| Scene.OwnMeshLast | src/Core/Shape.cpp:47-51 | the node's own mesh is requested last, after all children; with no mesh only the children's requests are added |
| Scene.DrawCallsUnder | src/Core/Shape.cpp:46-51 | every request of a subtree carries the node's matrix, multiplied on the left by the transforms below it |
| Scene.ChildrenCallsUnder | src/Core/Shape.cpp:47-48 | every request of the children carries the node's matrix |
| Scene.UnderProduct | src/Core/Shape.cpp:46 | a matrix built on `transform * parent` is built on `parent` |
| Scene.DrawCallsCount | src/Core/Shape.cpp:43-52 | a subtree gets exactly one request per node with a mesh |
| Scene.ChildrenCallsCount | src/Core/Shape.cpp:47-48 | the children get exactly one request per node with a mesh |
| Scene.Shape2D.FromTransform | src/Core/Shape.cpp:68 | no mesh and no children |
| Scene.Shape2D.FromMesh | src/Core/Shape.cpp:70 | the given mesh, the default transform, no children |
| Scene.Shape2D.constructor | src/Core/Shape.cpp:72-73 | the given mesh and transform, no children |
| Scene.Shape2D.SetMesh | src/Core/Shape.cpp:75-80 | the mesh becomes the argument; children and transform stay |
| Scene.Shape2D.RemoveMesh | src/Core/Shape.cpp:81-83 | the mesh becomes null; children and transform stay |
| Scene.Shape2D.AddChild | src/Core/Shape.cpp:85-91 | the child goes at the end; the other children keep their order |
| Scene.Shape2D.RemoveChild | src/Core/Shape.cpp:93-103 | only the first occurrence goes; an absent child changes nothing |

## Left out

- Floating point: coordinates are `real`. IEEE rounding, NaN and infinities are not modelled, except that a zero denominator in `overlap(Line)` gives false.
- `Line::overlap(Circle)` only forwards to `Circle::overlap(Line)`, which is not part of this model.
- `Rectangle::overlap(Point)` is not part of this model. `Geometry.RectContains` stands in for it as the closed box center ± size/2.
- Raster.Rasterize: the `(int64_t)` casts and the `int` loop counters are unbounded integers. Coordinates outside the 64-bit range and counters past the 32-bit range are not modelled.
- The bodies of `enableCollision` and `disableCollision` are not part of this model.
  - Collision.Registry.EnableCollision: the cells an object covers are a parameter, not computed from its shape.
  - The list position is found by identity rather than through the stored `elementIt` iterator. These agree because each list holds an object at most once.
- The shapes the concrete kinds carry (`mainCircle`, the `Rectangle` base, the `lines` deque) are not modelled. `timeFlow` is a field that no modelled operation reads.
- The per-kind lists and `spacialHash` are static members in the source, shared by every `CollisionDetector`. In the model each detector refers to a `Registry`, and nothing forces two detectors to share one.
- `checkCollision`, `computeLocalCollision` and `update` (the sweep, the reactions and the calls to `hit`, `moove` and the update hooks) are not part of this model.
- Overrides of the virtual hooks are not modelled; only the defaults are.
- The bodies of `pause` and `unpause` are not part of this model. They are modelled as setting and clearing `timeStoped`.
- `Reaction` values other than `STOP` are kept abstract.
- Scene.Shape.GetDrawCallList:
  - 4×4 matrices are symbolic: `Product(a, b)` stands for `a * b`.
  - What `Mesh::getDrawCallList` adds per primitive is not part of this model. Each call adds one `(mesh, matrix)` request, and the map keyed by primitive is kept as the ordered list of requests.
  - The method requires the graph below the node to be acyclic, a ghost bound on its depth. On a cyclic graph the source recurses without end.
- Geometry.SharedEndpointOverlaps: the guarantee that segments sharing an endpoint overlap holds only for non-parallel segments. Collinear segments meeting end to end, such as (0,0)–(1,0) and (1,0)–(2,0), get a zero denominator and are reported as not overlapping; `Geometry.EndToEndNotReported` states this.
- Null child pointers: the `addChild(Shape *)` and `removeChild(Shape *)` overloads of `Shape` and `Shape2D` accept `nullptr`, which the model's child lists of non-null nodes cannot hold. Adding or removing a null child is not modelled.
- The `operator<<` printers of `Shape` and `Shape2D` are output only and are left out.

## Findings

| source | as written | input that shows it | evidently intended | confidence | as-written member | corrected member |
|---|---|---|---|---|---|---|
| src/Collision/Line.cpp:85-98 | the bounds are cast with `(int64_t)`, which rounds toward zero, so a negative coordinate is rounded up | the segment (−0.5, 0.5)–(0.5, 0.5) starts in cell (−1, 0), yet only cell (0, 0) is returned | bounds rounded down (floor), so that no cell the segment passes through is missed by the spatial hash | medium, not executed | Raster.TruncatedCoverMissesCell | Raster.FloorRasterCovers |

The cover is described as running from floor(min) to floor(max). The code truncates
instead. `Raster.Rasterize` follows the code. `Raster.FloorRasterCells` is the rounded-down
cover, and `Raster.FloorRasterAgreesOnNonNegative` shows the two differ only on segments
that reach below zero.
