/** `Line::rasterize`: the integer cells covering a segment's bounding box, the cell cover
    the spatial hash uses for a static line. */
module Raster {
  import opened Geometry

  /** A grid cell `Vec2<int32_t>`; cell (i, j) stands for the unit square [i, i+1) × [j, j+1). */
  datatype Cell = Cell(x: int, y: int)

  /** The `(int64_t)` cast of a coordinate: rounds toward zero. */
  function Trunc(v: real): (r: int)
    ensures v >= 0.0 ==> 0 <= r && r as real <= v < r as real + 1.0
    ensures v < 0.0 ==> r <= 0 && r as real - 1.0 < v <= r as real
  {
    if v >= 0.0 then v.Floor else -((-v).Floor)
  }

  lemma TruncMonotone(u: real, v: real)
    requires u <= v
    ensures Trunc(u) <= Trunc(v)
  {
  }

  /** The inclusive cell ranges the two loops of `rasterize` run over. */
  datatype Box = Box(startx: int, endx: int, starty: int, endy: int)

  /** One axis of the loop bounds: the smaller and the larger coordinate, each cast. */
  function TruncRange(u: real, v: real): (r: (int, int))
    ensures r.0 <= r.1
  {
    if u < v then TruncMonotone(u, v); (Trunc(u), Trunc(v))
    else TruncMonotone(v, u); (Trunc(v), Trunc(u))
  }

  /** The loop bounds of both axes. */
  function Bounds(l: Line): (b: Box)
    ensures b.startx <= b.endx && b.starty <= b.endy
  {
    var (sx, ex) := TruncRange(l.positionA.x, l.positionB.x);
    var (sy, ey) := TruncRange(l.positionA.y, l.positionB.y);
    Box(sx, ex, sy, ey)
  }

  /** The cells of column `i` from row `y0` to row `y1`. */
  function Column(i: int, y0: int, y1: int): set<Cell>
  {
    set j | y0 <= j <= y1 :: Cell(i, j)
  }

  /** Every cell (i, j) with x0 ≤ i ≤ x1 and y0 ≤ j ≤ y1. */
  function CellBox(x0: int, x1: int, y0: int, y1: int): set<Cell>
  {
    set i, j | x0 <= i <= x1 && y0 <= j <= y1 :: Cell(i, j)
  }

  /** What `rasterize` returns. */
  function RasterCells(l: Line): set<Cell>
  {
    var b := Bounds(l);
    CellBox(b.startx, b.endx, b.starty, b.endy)
  }

  /** `rasterize`: two nested loops emplace every cell of the bounding box into the set. */
  method Rasterize(l: Line) returns (points: set<Cell>)
    ensures points == RasterCells(l)
  {
    var startx, endx, starty, endy;
    if l.positionA.x < l.positionB.x {
      startx, endx := Trunc(l.positionA.x), Trunc(l.positionB.x);
    } else {
      startx, endx := Trunc(l.positionB.x), Trunc(l.positionA.x);
    }
    if l.positionA.y < l.positionB.y {
      starty, endy := Trunc(l.positionA.y), Trunc(l.positionB.y);
    } else {
      starty, endy := Trunc(l.positionB.y), Trunc(l.positionA.y);
    }
    assert Bounds(l) == Box(startx, endx, starty, endy);
    points := {};
    var i := startx;
    while i <= endx
      invariant startx <= i <= endx + 1
      invariant points == CellBox(startx, i - 1, starty, endy)
    {
      var j := starty;
      while j <= endy
        invariant starty <= j <= endy + 1
        invariant points == CellBox(startx, i - 1, starty, endy) + Column(i, starty, j - 1)
      {
        assert Column(i, starty, j) == Column(i, starty, j - 1) + {Cell(i, j)};
        points := points + {Cell(i, j)};
        j := j + 1;
      }
      assert CellBox(startx, i, starty, endy) == CellBox(startx, i - 1, starty, endy) + Column(i, starty, endy);
      i := i + 1;
    }
  }

  /** A cell is returned exactly when both its coordinates lie within the cast bounds. */
  lemma RasterCellsMembership(l: Line, c: Cell)
    ensures var b := Bounds(l);
      c in RasterCells(l) <==> b.startx <= c.x <= b.endx && b.starty <= c.y <= b.endy
  {
    var b := Bounds(l);
    if b.startx <= c.x <= b.endx && b.starty <= c.y <= b.endy {
      assert c == Cell(c.x, c.y);
    }
  }

  lemma {:induction false} ColumnCardinality(i: int, y0: int, y1: int)
    requires y0 <= y1 + 1
    ensures |Column(i, y0, y1)| == y1 - y0 + 1
    decreases y1 - y0
  {
    if y0 <= y1 {
      assert Column(i, y0, y1) == Column(i, y0, y1 - 1) + {Cell(i, y1)};
      ColumnCardinality(i, y0, y1 - 1);
    } else {
      assert Column(i, y0, y1) == {};
    }
  }

  /** The box is the narrower box plus its last column, which it does not yet contain. */
  lemma BoxLastColumn(x0: int, x1: int, y0: int, y1: int)
    requires x0 <= x1
    ensures CellBox(x0, x1, y0, y1) == CellBox(x0, x1 - 1, y0, y1) + Column(x1, y0, y1)
    ensures CellBox(x0, x1 - 1, y0, y1) !! Column(x1, y0, y1)
  {
    var whole, narrow, col := CellBox(x0, x1, y0, y1), CellBox(x0, x1 - 1, y0, y1), Column(x1, y0, y1);
    forall c | c in whole
      ensures c in narrow + col
    {
      if c.x < x1 {
        assert c in narrow;
      } else {
        assert c in col;
      }
    }
    forall c | c in narrow + col
      ensures c in whole
    {
      if c in narrow {
        var i, j :| x0 <= i <= x1 - 1 && y0 <= j <= y1 && c == Cell(i, j);
      } else {
        var j :| y0 <= j <= y1 && c == Cell(x1, j);
      }
    }
  }

  lemma {:induction false} BoxCardinality(x0: int, x1: int, y0: int, y1: int)
    requires x0 <= x1 + 1 && y0 <= y1 + 1
    ensures |CellBox(x0, x1, y0, y1)| == (x1 - x0 + 1) * (y1 - y0 + 1)
    decreases x1 - x0
  {
    if x0 <= x1 {
      BoxLastColumn(x0, x1, y0, y1);
      BoxCardinality(x0, x1 - 1, y0, y1);
      ColumnCardinality(x1, y0, y1);
      var w, h := x1 - x0, y1 - y0 + 1;
      assert (w + 1) * h == w * h + h;
    } else {
      assert CellBox(x0, x1, y0, y1) == {};
    }
  }

  /** The result has (endx − startx + 1)·(endy − starty + 1) cells. */
  lemma RasterCellsCount(l: Line)
    ensures var b := Bounds(l);
      |RasterCells(l)| == (b.endx - b.startx + 1) * (b.endy - b.starty + 1)
  {
    var b := Bounds(l);
    BoxCardinality(b.startx, b.endx, b.starty, b.endy);
  }

  /** The segment from (0, 0) to (3, 2) is covered by the 4 × 3 = 12 cells with
      0 ≤ x ≤ 3 and 0 ≤ y ≤ 2. */
  lemma RasterizeExample(l: Line)
    requires l == Line(Origin, Point(3.0, 2.0))
    ensures |RasterCells(l)| == 12
    ensures forall c: Cell :: c in RasterCells(l) <==> 0 <= c.x <= 3 && 0 <= c.y <= 2
  {
    assert Bounds(l) == Box(0, 3, 0, 2);
    RasterCellsCount(l);
    forall c: Cell
      ensures c in RasterCells(l) <==> 0 <= c.x <= 3 && 0 <= c.y <= 2
    {
      RasterCellsMembership(l, c);
    }
  }

  /** The endpoints may be given in either order. */
  lemma RasterCellsSymmetric(l: Line)
    ensures RasterCells(Line(l.positionB, l.positionA)) == RasterCells(l)
  {
    assert Bounds(Line(l.positionB, l.positionA)) == Bounds(l);
  }

  // ---------------------------------------------------------------------------
  // Does the cover contain every cell the segment passes through?

  /** The cell a point lies in: cell (i, j) is the square [i, i+1) × [j, j+1). */
  function CellOf(p: Point): (c: Cell)
    ensures c.x as real <= p.x < c.x as real + 1.0
    ensures c.y as real <= p.y < c.y as real + 1.0
  {
    Cell(p.x.Floor, p.y.Floor)
  }

  lemma FloorMonotone(u: real, v: real)
    requires u <= v
    ensures u.Floor <= v.Floor
  {
  }

  /** One axis of the rounded-down bounds, used by the corrected cover below. */
  function FloorRange(u: real, v: real): (r: (int, int))
    ensures r.0 <= r.1
  {
    if u < v then FloorMonotone(u, v); (u.Floor, v.Floor)
    else FloorMonotone(v, u); (v.Floor, u.Floor)
  }

  /** A coordinate between `u` and `v` has its cell within their rounded-down range. */
  lemma FloorRangeContains(u: real, v: real, p: real)
    requires u <= p <= v || v <= p <= u
    ensures FloorRange(u, v).0 <= p.Floor <= FloorRange(u, v).1
  {
    if u <= p <= v {
      FloorMonotone(u, p);
      FloorMonotone(p, v);
    } else {
      FloorMonotone(v, p);
      FloorMonotone(p, u);
    }
  }

  /** For non-negative coordinates the cast and the floor agree. */
  lemma TruncRangeNonNegative(u: real, v: real)
    requires u >= 0.0 && v >= 0.0
    ensures TruncRange(u, v) == FloorRange(u, v)
  {
  }

  /** A point of a segment lies between its endpoints on each axis. */
  lemma AtBetween(l: Line, s: real)
    requires 0.0 <= s <= 1.0
    ensures var p, a, b := At(l, s), l.positionA, l.positionB;
      (a.x <= p.x <= b.x || b.x <= p.x <= a.x) && (a.y <= p.y <= b.y || b.y <= p.y <= a.y)
  {
    var a, b := l.positionA, l.positionB;
    BetweenOnAxis(a.x, b.x, s);
    BetweenOnAxis(a.y, b.y, s);
  }

  lemma BetweenOnAxis(u: real, v: real, s: real)
    requires 0.0 <= s <= 1.0
    ensures u <= u + (v - u) * s <= v || v <= u + (v - u) * s <= u
  {
    if u <= v {
      ScaledStep(v - u, s, (v - u) * s);
    } else {
      ScaledStep(u - v, s, (u - v) * s);
      assert (v - u) * s == -((u - v) * s);
    }
  }

  /** Where all coordinates are non-negative the cast agrees with the floor, and the cover
      contains the cell of every point of the segment. */
  lemma RasterCoversNonNegative(l: Line, s: real)
    requires l.positionA.x >= 0.0 && l.positionA.y >= 0.0
    requires l.positionB.x >= 0.0 && l.positionB.y >= 0.0
    requires 0.0 <= s <= 1.0
    ensures CellOf(At(l, s)) in RasterCells(l)
  {
    FloorRasterAgreesOnNonNegative(l);
    FloorRasterCovers(l, s);
  }

  /** With a negative coordinate the cast rounds up, and a cell the segment passes through is
      missing: the segment from (−0.5, 0.5) to (0.5, 0.5) starts in cell (−1, 0), yet only
      cell (0, 0) is returned. */
  lemma TruncatedCoverMissesCell(l: Line)
    requires l == Line(Point(-0.5, 0.5), Point(0.5, 0.5))
    ensures CellOf(At(l, 0.0)) == Cell(-1, 0)
    ensures Cell(-1, 0) !in RasterCells(l)
    ensures RasterCells(l) == {Cell(0, 0)}
  {
    assert Bounds(l) == Box(0, 0, 0, 0);
    RasterCellsMembership(l, Cell(-1, 0));
    forall c | c in RasterCells(l)
      ensures c == Cell(0, 0)
    {
      RasterCellsMembership(l, c);
    }
    RasterCellsMembership(l, Cell(0, 0));
  }

  /** The cover with the bounds rounded down instead, so that each bound is the cell of the
      endpoint coordinate. */
  function FloorBounds(l: Line): (b: Box)
    ensures b.startx <= b.endx && b.starty <= b.endy
  {
    var (sx, ex) := FloorRange(l.positionA.x, l.positionB.x);
    var (sy, ey) := FloorRange(l.positionA.y, l.positionB.y);
    Box(sx, ex, sy, ey)
  }

  function FloorRasterCells(l: Line): set<Cell>
  {
    var b := FloorBounds(l);
    CellBox(b.startx, b.endx, b.starty, b.endy)
  }

  /** The rounded-down cover misses no cell: every point of the segment, whatever the signs of
      its coordinates, lies in a returned cell. */
  lemma FloorRasterCovers(l: Line, s: real)
    requires 0.0 <= s <= 1.0
    ensures CellOf(At(l, s)) in FloorRasterCells(l)
  {
    var a, b, p := l.positionA, l.positionB, At(l, s);
    AtBetween(l, s);
    FloorRangeContains(a.x, b.x, p.x);
    FloorRangeContains(a.y, b.y, p.y);
    var fb := FloorBounds(l);
    assert fb.startx <= p.x.Floor <= fb.endx && fb.starty <= p.y.Floor <= fb.endy;
  }

  /** On non-negative coordinates the two covers are the same, so the correction only
      changes segments that reach below zero. */
  lemma FloorRasterAgreesOnNonNegative(l: Line)
    requires l.positionA.x >= 0.0 && l.positionA.y >= 0.0
    requires l.positionB.x >= 0.0 && l.positionB.y >= 0.0
    ensures FloorRasterCells(l) == RasterCells(l)
  {
    TruncRangeNonNegative(l.positionA.x, l.positionB.x);
    TruncRangeNonNegative(l.positionA.y, l.positionB.y);
  }
}
