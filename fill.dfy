/**
 * Scanline filling of one projected face (`fill_area`).
 *
 * The boundary is the four Bresenham edges of the quadrilateral, duplicates
 * removed. Each row from the lowest to the highest vertex row is filled from
 * its leftmost to its rightmost boundary point, when it holds at least two
 * boundary points.
 */
module Fill {
  import opened Bresenham
  import opened Screen

  /** The four projected corners of a face, in face order. */
  datatype Quad = Quad(p0: Point, p1: Point, p2: Point, p3: Point)

  function Line(p: Point, q: Point): seq<Point> {
    LinePoints(p.x, p.y, q.x, q.y)
  }

  /** `edge1 + edge2 + edge3 + edge4`: the closed boundary, with repeats. */
  function Boundary(q: Quad): seq<Point> {
    Line(q.p0, q.p1) + Line(q.p1, q.p2) + Line(q.p2, q.p3) + Line(q.p3, q.p0)
  }

  function Min(a: int, b: int): int { if a < b then a else b }

  function YMin(q: Quad): int { Min(Min(q.p0.y, q.p1.y), Min(q.p2.y, q.p3.y)) }

  function YMax(q: Quad): int { Max(Max(q.p0.y, q.p1.y), Max(q.p2.y, q.p3.y)) }

  function XMin(q: Quad): int { Min(Min(q.p0.x, q.p1.x), Min(q.p2.x, q.p3.x)) }

  function XMax(q: Quad): int { Max(Max(q.p0.x, q.p1.x), Max(q.p2.x, q.p3.x)) }

  predicate Distinct<T(==)>(s: seq<T>) {
    forall i, j :: 0 <= i < j < |s| ==> s[i] != s[j]
  }

  /**
   * `list(set(edges))`: the same points, each once. (The order of the
   * source's set is unspecified; only membership is used afterwards.)
   */
  function Dedup(s: seq<Point>): (r: seq<Point>)
    ensures Distinct(r)
    ensures forall p :: p in r <==> p in s
  {
    if s == [] then []
    else if s[0] in s[1..] then Dedup(s[1..])
    else [s[0]] + Dedup(s[1..])
  }

  /** `[x for x, yy in edges if yy == y]`: the columns of the points on row y. */
  function RowColumns(pts: seq<Point>, y: int): (r: seq<int>)
    ensures forall x :: x in r <==> Point(x, y) in pts
    ensures Distinct(pts) ==> Distinct(r)
  {
    if pts == [] then []
    else (if pts[0].y == y then [pts[0].x] else []) + RowColumns(pts[1..], y)
  }

  /** `sorted(s)[0]`. */
  function MinOf(s: seq<int>): (m: int)
    requires |s| > 0
    ensures m in s && forall k :: k in s ==> m <= k
  {
    if |s| == 1 then s[0]
    else
      assert forall k :: k in s ==> k == s[0] || k in s[1..];
      Min(s[0], MinOf(s[1..]))
  }

  /** `sorted(s)[-1]`. */
  function MaxOf(s: seq<int>): (m: int)
    requires |s| > 0
    ensures m in s && forall k :: k in s ==> k <= m
  {
    if |s| == 1 then s[0]
    else
      assert forall k :: k in s ==> k == s[0] || k in s[1..];
      Max(s[0], MaxOf(s[1..]))
  }

  /** The scanline's boundary columns, as `fill_area` computes them for row y. */
  function Intersections(q: Quad, y: int): seq<int> {
    RowColumns(Dedup(Boundary(q)), y)
  }

  /** Cell (row r, column c) is one that `fill_area` writes. */
  predicate Covers(q: Quad, r: int, c: int) {
    var xs := Intersections(q, r);
    YMin(q) <= r <= YMax(q) && |xs| >= 2 && MinOf(xs) <= c <= MaxOf(xs)
  }

  /** Every boundary point lies in the bounding box of the four corners. */
  lemma BoundaryInBox(q: Quad)
    ensures forall p :: p in Boundary(q) ==>
      YMin(q) <= p.y <= YMax(q) && XMin(q) <= p.x <= XMax(q)
  {
    EdgeInBox(q, q.p0, q.p1);
    EdgeInBox(q, q.p1, q.p2);
    EdgeInBox(q, q.p2, q.p3);
    EdgeInBox(q, q.p3, q.p0);
  }

  lemma EdgeInBox(q: Quad, a: Point, b: Point)
    requires a in {q.p0, q.p1, q.p2, q.p3} && b in {q.p0, q.p1, q.p2, q.p3}
    ensures forall p :: p in Line(a, b) ==>
      YMin(q) <= p.y <= YMax(q) && XMin(q) <= p.x <= XMax(q)
  {
    LineInBox(a.x, a.y, b.x, b.y);
    assert YMin(q) <= a.y <= YMax(q) && XMin(q) <= a.x <= XMax(q);
    assert YMin(q) <= b.y <= YMax(q) && XMin(q) <= b.x <= XMax(q);
  }

  /** A sequence without repeats and with two or more elements has two different ones. */
  lemma TwoDistinct(xs: seq<int>)
    requires Distinct(xs)
    ensures |xs| >= 2 <==> exists u, v :: u in xs && v in xs && u != v
  {
    if |xs| >= 2 {
      assert xs[0] in xs && xs[1] in xs;
    } else if |xs| == 1 {
      assert forall u :: u in xs ==> u == xs[0];
    }
  }

  /**
   * What `fill_area` writes, stated without the scan, the de-duplication or
   * the sorting: a cell is written exactly when its row holds boundary points
   * in two different columns, and its column lies between the leftmost and
   * the rightmost of them.
   */
  lemma CoversExactly(q: Quad, r: int, c: int)
    ensures var b := Boundary(q);
      Covers(q, r, c) <==>
        (exists u, v :: Point(u, r) in b && Point(v, r) in b && u != v) &&
        (exists u :: Point(u, r) in b && u <= c) &&
        (exists v :: Point(v, r) in b && c <= v)
  {
    var b := Boundary(q);
    var xs := Intersections(q, r);
    assert forall x :: x in xs <==> Point(x, r) in b;
    TwoDistinct(xs);
    BoundaryInBox(q);
    if exists u :: Point(u, r) in b {
      var u :| Point(u, r) in b;
      assert YMin(q) <= r <= YMax(q);
    }
  }

  /** A row whose boundary points all share one column is left untouched, that column included. */
  lemma OneColumnRowUntouched(q: Quad, r: int, c: int)
    requires forall u, v :: Point(u, r) in Boundary(q) && Point(v, r) in Boundary(q) ==> u == v
    ensures !Covers(q, r, c)
  {
    CoversExactly(q, r, c);
  }

  /** Only rows from the lowest to the highest corner row, and columns within the corners' span, are written. */
  lemma CoversInBox(q: Quad, r: int, c: int)
    requires Covers(q, r, c)
    ensures YMin(q) <= r <= YMax(q) && XMin(q) <= c <= XMax(q)
  {
    var xs := Intersections(q, r);
    BoundaryInBox(q);
    assert Point(MinOf(xs), r) in Boundary(q) && Point(MaxOf(xs), r) in Boundary(q);
  }

  /**
   * De-duplication leaves a row's leftmost and rightmost boundary column as
   * they are; only the count of points on the row, and so the "at least two"
   * test, depends on it.
   */
  lemma DedupKeepsExtent(q: Quad, r: int)
    requires |RowColumns(Boundary(q), r)| > 0
    ensures |Intersections(q, r)| > 0
    ensures MinOf(Intersections(q, r)) == MinOf(RowColumns(Boundary(q), r))
    ensures MaxOf(Intersections(q, r)) == MaxOf(RowColumns(Boundary(q), r))
  {
    var b := Boundary(q);
    var raw, xs := RowColumns(b, r), Intersections(q, r);
    assert forall x :: x in xs <==> Point(x, r) in Dedup(b);
    assert forall x :: x in raw <==> Point(x, r) in b;
    assert forall x :: x in xs <==> x in raw;
    assert raw[0] in raw;
  }

  /**
   * The corners (0,0) (2,2) (0,4) (-2,2): on row 0 the raw boundary holds the
   * corner (0,0) twice, once per edge meeting there, and the de-duplicated
   * boundary once, so row 0 is left untouched, its corner included.
   */
  lemma DedupDecidesSinglePointRow(q: Quad)
    requires q == Quad(Point(0, 0), Point(2, 2), Point(0, 4), Point(-2, 2))
    ensures RowColumns(Boundary(q), 0) == [0, 0] && Intersections(q, 0) == [0] && !Covers(q, 0, 0)
  {
    DiamondRawRow(q);
    DiamondDedupRow(q);
  }

  lemma DiamondRawRow(q: Quad)
    requires q == Quad(Point(0, 0), Point(2, 2), Point(0, 4), Point(-2, 2))
    ensures RowColumns(Boundary(q), 0) == [0, 0]
  {
    var e1, e2, e3, e4 := DiamondEdges(q);
    DiamondEdgeRows();
    RowColumnsAppend(e1, e2, 0);
    RowColumnsAppend(e1 + e2, e3, 0);
    RowColumnsAppend(e1 + e2 + e3, e4, 0);
  }

  /** Row 0 of each edge of the diamond. */
  lemma DiamondEdgeRows()
    ensures RowColumns([Point(0, 0), Point(1, 1), Point(2, 2)], 0) == [0]
    ensures RowColumns([Point(2, 2), Point(1, 3), Point(0, 4)], 0) == []
    ensures RowColumns([Point(0, 4), Point(-1, 3), Point(-2, 2)], 0) == []
    ensures RowColumns([Point(-2, 2), Point(-1, 1), Point(0, 0)], 0) == [0]
  {
  }

  lemma DiamondDedupRow(q: Quad)
    requires q == Quad(Point(0, 0), Point(2, 2), Point(0, 4), Point(-2, 2))
    ensures Intersections(q, 0) == [0]
  {
    var b := Boundary(q);
    var xs := Intersections(q, 0);
    DiamondRawRow(q);
    assert RowColumns(b, 0) == [0, 0];
    assert forall x :: x in xs <==> Point(x, 0) in b;
    assert 0 in xs && forall x :: x in xs ==> x == 0;
    Singleton(xs, 0);
  }

  /** The four edges of the example above, point by point. */
  lemma DiamondEdges(q: Quad) returns (e1: seq<Point>, e2: seq<Point>, e3: seq<Point>, e4: seq<Point>)
    requires q == Quad(Point(0, 0), Point(2, 2), Point(0, 4), Point(-2, 2))
    ensures e1 == [Point(0, 0), Point(1, 1), Point(2, 2)] && e2 == [Point(2, 2), Point(1, 3), Point(0, 4)]
    ensures e3 == [Point(0, 4), Point(-1, 3), Point(-2, 2)] && e4 == [Point(-2, 2), Point(-1, 1), Point(0, 0)]
    ensures Boundary(q) == e1 + e2 + e3 + e4
  {
    e1 := LinePoints(0, 0, 2, 2);
    e2 := LinePoints(2, 2, 0, 4);
    e3 := LinePoints(0, 4, -2, 2);
    e4 := LinePoints(-2, 2, 0, 0);
    assert e1 == [Point(0, 0), Point(1, 1), Point(2, 2)];
    assert e2 == [Point(2, 2), Point(1, 3), Point(0, 4)];
    assert e3 == [Point(0, 4), Point(-1, 3), Point(-2, 2)];
    assert e4 == [Point(-2, 2), Point(-1, 1), Point(0, 0)];
  }

  lemma Singleton(xs: seq<int>, v: int)
    requires Distinct(xs) && v in xs && forall x :: x in xs ==> x == v
    ensures xs == [v]
  {
    TwoDistinct(xs);
  }

  /**
   * An axis-aligned rectangle, corners listed around its boundary from any
   * corner, first along a horizontal side, fills exactly its closed box,
   * boundary included. It needs two distinct columns; one of zero width is a single
   * column and fills nothing (`OneColumnRowUntouched`).
   */
  lemma RectangleFill(a: int, b: int, c: int, d: int, r: int, col: int)
    requires a != c
    ensures Covers(Quad(Point(a, b), Point(c, b), Point(c, d), Point(a, d)), r, col) <==>
      Between(r, b, d) && Between(col, a, c)
  {
    var q := Quad(Point(a, b), Point(c, b), Point(c, d), Point(a, d));
    if Covers(q, r, col) {
      CoversInBox(q, r, col);
    }
    if Between(r, b, d) && Between(col, a, c) {
      LineCrossesRow(c, b, c, d, r);
      LineInBox(c, b, c, d);
      var p :| p in Line(q.p1, q.p2) && p.y == r;
      assert p == Point(c, r);
      LineCrossesRow(a, d, a, b, r);
      LineInBox(a, d, a, b);
      var p' :| p' in Line(q.p3, q.p0) && p'.y == r;
      assert p' == Point(a, r);
      var xs := Intersections(q, r);
      assert Point(a, r) in Boundary(q) && Point(c, r) in Boundary(q);
      assert a in xs && c in xs;
      TwoDistinct(xs);
      CoversExactly(q, r, col);
    }
  }

  /** The square with corners (2,2), (6,2), (6,6), (2,6) fills its 5x5 block. */
  lemma SquareFill(r: int, col: int)
    ensures Covers(Quad(Point(2, 2), Point(6, 2), Point(6, 6), Point(2, 6)), r, col) <==>
      2 <= r <= 6 && 2 <= col <= 6
  {
    RectangleFill(2, 2, 6, 6, r, col);
  }

  lemma {:induction false} RowColumnsAppend(a: seq<Point>, b: seq<Point>, y: int)
    ensures RowColumns(a + b, y) == RowColumns(a, y) + RowColumns(b, y)
  {
    if a == [] {
      assert a + b == b;
    } else {
      var head := if a[0].y == y then [a[0].x] else [];
      assert (a + b)[0] == a[0];
      assert (a + b)[1..] == a[1..] + b;
      RowColumnsAppend(a[1..], b, y);
      calc {
        RowColumns(a + b, y);
        head + RowColumns(a[1..] + b, y);
        head + (RowColumns(a[1..], y) + RowColumns(b, y));
        (head + RowColumns(a[1..], y)) + RowColumns(b, y);
      }
    }
  }

  /** `fill_area(stdscr, x0, y0, ..., x3, y3)`. */
  method FillArea(canvas: Canvas, x0: int, y0: int, x1: int, y1: int, x2: int, y2: int, x3: int, y3: int)
    requires canvas.Valid()
    modifies canvas.cells
    ensures forall r, c :: canvas.InBounds(r, c) ==>
      canvas.cells[r, c] ==
        if Covers(Quad(Point(x0, y0), Point(x1, y1), Point(x2, y2), Point(x3, y3)), r, c)
        then Glyph else old(canvas.cells[r, c])
  {
    ghost var q := Quad(Point(x0, y0), Point(x1, y1), Point(x2, y2), Point(x3, y3));
    var edge1 := GetLinePoints(x0, y0, x1, y1);
    var edge2 := GetLinePoints(x1, y1, x2, y2);
    var edge3 := GetLinePoints(x2, y2, x3, y3);
    var edge4 := GetLinePoints(x3, y3, x0, y0);
    var edges := edge1 + edge2 + edge3 + edge4;
    edges := Dedup(edges);
    assert edges == Dedup(Boundary(q));
    var yMin := Min(Min(y0, y1), Min(y2, y3));
    var yMax := Max(Max(y0, y1), Max(y2, y3));
    assert yMin == YMin(q);
    assert yMax == YMax(q);
    RowRange(q);
    for y := yMin to yMax + 1
      invariant forall r, c :: canvas.InBounds(r, c) ==>
        canvas.cells[r, c] == if r < y && Covers(q, r, c) then Glyph else old(canvas.cells[r, c])
    {
      var intersections := RowColumns(edges, y);
      assert intersections == Intersections(q, y);
      if |intersections| >= 2 {
        var lo, hi := MinOf(intersections), MaxOf(intersections);
        FillRow(canvas, y, lo, hi);
      }
      forall r, c | canvas.InBounds(r, c)
        ensures canvas.cells[r, c] == if r < y + 1 && Covers(q, r, c) then Glyph else old(canvas.cells[r, c])
      {
        ScanRow(q, y, r, c, intersections);
      }
    }
  }

  /** The lowest vertex row is not below the highest. */
  lemma RowRange(q: Quad)
    ensures YMin(q) <= YMax(q)
  {
  }

  /**
   * Scanning row y extends the covered rows below y by the row's own test:
   * at least two columns, and c between the least and the greatest.
   */
  lemma ScanRow(q: Quad, y: int, r: int, c: int, xs: seq<int>)
    requires YMin(q) <= y <= YMax(q) && xs == Intersections(q, y)
    ensures (r < y + 1 && Covers(q, r, c)) <==>
      (r < y && Covers(q, r, c)) || (r == y && |xs| >= 2 && MinOf(xs) <= c <= MaxOf(xs))
  {
  }

  /** The inner loop of `fill_area`: the glyph on row y, columns lo..hi. */
  method FillRow(canvas: Canvas, y: int, lo: int, hi: int)
    requires canvas.Valid()
    modifies canvas.cells
    ensures forall r, c :: canvas.InBounds(r, c) ==>
      canvas.cells[r, c] == if r == y && lo <= c <= hi then Glyph else old(canvas.cells[r, c])
  {
    var x := lo;
    while x <= hi
      invariant x == lo || lo < x <= hi + 1
      invariant forall r, c :: canvas.InBounds(r, c) ==>
        canvas.cells[r, c] == if r == y && lo <= c < x then Glyph else old(canvas.cells[r, c])
      decreases hi - x
    {
      canvas.Put(y, x);
      x := x + 1;
    }
  }

  /** Filling the same quadrilateral twice leaves the screen as filling it once does. */
  method FillAreaTwice(canvas: Canvas, x0: int, y0: int, x1: int, y1: int, x2: int, y2: int, x3: int, y3: int)
    requires canvas.Valid()
    modifies canvas.cells
    ensures forall r, c :: canvas.InBounds(r, c) ==>
      canvas.cells[r, c] ==
        if Covers(Quad(Point(x0, y0), Point(x1, y1), Point(x2, y2), Point(x3, y3)), r, c)
        then Glyph else old(canvas.cells[r, c])
  {
    FillArea(canvas, x0, y0, x1, y1, x2, y2, x3, y3);
    FillArea(canvas, x0, y0, x1, y1, x2, y2, x3, y3);
  }
}
