/**
 * The cube's fixed topology and the two ways a frame draws it: every edge as
 * a Bresenham line (`draw_cube_edges`) or every face filled (`draw_cube`).
 * Both take the 8 vertices already projected to integer screen points.
 */
module Cube {
  import opened Bresenham
  import opened Screen
  import opened Fill

  /** The 12 edges, as pairs of vertex indices: front face, back face, connecting edges. */
  const Edges: seq<(int, int)> := [
    (0, 1), (1, 2), (2, 3), (3, 0),
    (4, 5), (5, 6), (6, 7), (7, 4),
    (0, 4), (1, 5), (2, 6), (3, 7)
  ]

  /** The 6 faces, as 4-tuples of vertex indices in boundary order. */
  const Faces: seq<(int, int, int, int)> := [
    (0, 1, 2, 3),
    (0, 1, 5, 4),
    (4, 5, 6, 7),
    (2, 3, 7, 6),
    (0, 4, 7, 3),
    (1, 5, 6, 2)
  ]

  predicate IsVertex(i: int) { 0 <= i < 8 }

  /** i and j are joined by an edge of the table, in either direction. */
  predicate IsEdge(i: int, j: int) {
    (i, j) in Edges || (j, i) in Edges
  }

  /** Every side of face f, the closing one from the last corner back to the first included, is an edge. */
  predicate SidesAreEdges(f: (int, int, int, int)) {
    IsEdge(f.0, f.1) && IsEdge(f.1, f.2) && IsEdge(f.2, f.3) && IsEdge(f.3, f.0)
  }

  /** The number of edges in es that meet vertex v. */
  function Degree(v: int, es: seq<(int, int)>): nat {
    if es == [] then 0
    else (if es[0].0 == v || es[0].1 == v then 1 else 0) + Degree(v, es[1..])
  }

  /** The number of faces in fs whose boundary runs along the edge (i, j). */
  function FacesOnEdge(i: int, j: int, fs: seq<(int, int, int, int)>): nat {
    if fs == [] then 0
    else
      var f := fs[0];
      var on := (f.0 == i && f.1 == j) || (f.1 == i && f.2 == j) || (f.2 == i && f.3 == j) || (f.3 == i && f.0 == j) ||
                (f.0 == j && f.1 == i) || (f.1 == j && f.2 == i) || (f.2 == j && f.3 == i) || (f.3 == j && f.0 == i);
      (if on then 1 else 0) + FacesOnEdge(i, j, fs[1..])
  }

  /** Both tables have the sizes of a cube and index only its 8 vertices. */
  lemma TablesInRange()
    ensures |Edges| == 12 && |Faces| == 6
    ensures forall k :: 0 <= k < |Edges| ==> IsVertex(Edges[k].0) && IsVertex(Edges[k].1) && Edges[k].0 != Edges[k].1
    ensures forall k :: 0 <= k < |Faces| ==>
      IsVertex(Faces[k].0) && IsVertex(Faces[k].1) && IsVertex(Faces[k].2) && IsVertex(Faces[k].3)
  {
  }

  /** No edge is listed twice, in either direction: the edge mode draws 12 different segments. */
  lemma EdgesDistinct()
    ensures forall k, l :: 0 <= k < l < |Edges| ==>
      Edges[k] != Edges[l] && Edges[k] != (Edges[l].1, Edges[l].0)
  {
  }

  lemma {:induction false} DegreeAppend(v: int, a: seq<(int, int)>, b: seq<(int, int)>)
    ensures Degree(v, a + b) == Degree(v, a) + Degree(v, b)
  {
    if a != [] {
      assert (a + b)[0] == a[0] && (a + b)[1..] == a[1..] + b;
      DegreeAppend(v, a[1..], b);
    } else {
      assert a + b == b;
    }
  }

  /** Vertex degrees in the front-face group of the edge table. */
  lemma FrontDegrees()
    ensures var e := [(0, 1), (1, 2), (2, 3), (3, 0)];
      Degree(0, e) == 2 && Degree(1, e) == 2 && Degree(2, e) == 2 && Degree(3, e) == 2 &&
      Degree(4, e) == 0 && Degree(5, e) == 0 && Degree(6, e) == 0 && Degree(7, e) == 0
  {
  }

  /** Vertex degrees in the back-face group of the edge table. */
  lemma BackDegrees()
    ensures var e := [(4, 5), (5, 6), (6, 7), (7, 4)];
      Degree(0, e) == 0 && Degree(1, e) == 0 && Degree(2, e) == 0 && Degree(3, e) == 0 &&
      Degree(4, e) == 2 && Degree(5, e) == 2 && Degree(6, e) == 2 && Degree(7, e) == 2
  {
  }

  /** Vertex degrees in the connecting group of the edge table. */
  lemma LinkDegrees()
    ensures var e := [(0, 4), (1, 5), (2, 6), (3, 7)];
      Degree(0, e) == 1 && Degree(1, e) == 1 && Degree(2, e) == 1 && Degree(3, e) == 1 &&
      Degree(4, e) == 1 && Degree(5, e) == 1 && Degree(6, e) == 1 && Degree(7, e) == 1
  {
  }

  /** Every vertex is the end of exactly 3 edges. */
  lemma EveryVertexHasThreeEdges()
    ensures forall v :: IsVertex(v) ==> Degree(v, Edges) == 3
  {
    var front, back, links := [(0, 1), (1, 2), (2, 3), (3, 0)], [(4, 5), (5, 6), (6, 7), (7, 4)], [(0, 4), (1, 5), (2, 6), (3, 7)];
    assert Edges == front + back + links;
    FrontDegrees();
    BackDegrees();
    LinkDegrees();
    forall v | IsVertex(v)
      ensures Degree(v, Edges) == 3
    {
      DegreeAppend(v, front + back, links);
      DegreeAppend(v, front, back);
    }
  }

  /** Each face's four sides are edges of the table. */
  lemma FacesFollowEdges()
    ensures forall k :: 0 <= k < |Faces| ==> SidesAreEdges(Faces[k])
  {
    forall k | 0 <= k < |Faces|
      ensures SidesAreEdges(Faces[k])
    {
      assert k in {0, 1, 2, 3, 4, 5};
    }
  }

  /** The faces close up: every edge is a side of exactly two faces. */
  lemma EveryEdgeOnTwoFaces()
    ensures forall k :: 0 <= k < |Edges| ==> FacesOnEdge(Edges[k].0, Edges[k].1, Faces) == 2
  {
    forall k | 0 <= k < |Edges|
      ensures FacesOnEdge(Edges[k].0, Edges[k].1, Faces) == 2
    {
      assert k in {0, 1, 2, 3, 4, 5, 6, 7, 8, 9, 10, 11};
    }
  }

  /** The Bresenham line of edge k between the projected vertices. */
  function EdgeLine(vertices: seq<Point>, k: int): seq<Point>
    requires |vertices| == 8 && 0 <= k < |Edges|
  {
    TablesInRange();
    var (i, j) := Edges[k];
    LinePoints(vertices[i].x, vertices[i].y, vertices[j].x, vertices[j].y)
  }

  /** The face k with its projected corners. */
  function FaceQuad(vertices: seq<Point>, k: int): Quad
    requires |vertices| == 8 && 0 <= k < |Faces|
  {
    TablesInRange();
    var (a, b, c, d) := Faces[k];
    Quad(vertices[a], vertices[b], vertices[c], vertices[d])
  }

  /** Cell (r, c) lies on one of the first n edges' lines. */
  predicate OnEdges(vertices: seq<Point>, n: int, r: int, c: int)
    requires |vertices| == 8 && 0 <= n <= |Edges|
  {
    exists k :: 0 <= k < n && Point(c, r) in EdgeLine(vertices, k)
  }

  /** Cell (r, c) is filled by one of the first n faces. */
  predicate OnFaces(vertices: seq<Point>, n: int, r: int, c: int)
    requires |vertices| == 8 && 0 <= n <= |Faces|
  {
    exists k :: 0 <= k < n && Covers(FaceQuad(vertices, k), r, c)
  }

  /**
   * `draw_cube_edges`: the glyph is written exactly at the in-bounds points
   * of the 12 edge lines; every other cell keeps its content.
   */
  method DrawCubeEdges(canvas: Canvas, vertices: seq<Point>)
    requires canvas.Valid() && |vertices| == 8
    modifies canvas.cells
    ensures forall r, c :: canvas.InBounds(r, c) ==>
      canvas.cells[r, c] == if OnEdges(vertices, |Edges|, r, c) then Glyph else old(canvas.cells[r, c])
  {
    TablesInRange();
    for k := 0 to |Edges|
      invariant forall r, c :: canvas.InBounds(r, c) ==>
        canvas.cells[r, c] == if OnEdges(vertices, k, r, c) then Glyph else old(canvas.cells[r, c])
    {
      var (i, j) := Edges[k];
      var points := GetLinePoints(vertices[i].x, vertices[i].y, vertices[j].x, vertices[j].y);
      assert points == EdgeLine(vertices, k);
      for t := 0 to |points|
        invariant forall r, c :: canvas.InBounds(r, c) ==>
          canvas.cells[r, c] ==
            if OnEdges(vertices, k, r, c) || Point(c, r) in points[..t] then Glyph else old(canvas.cells[r, c])
      {
        assert points[..t + 1] == points[..t] + [points[t]];
        canvas.Put(points[t].y, points[t].x);
      }
      assert points[..|points|] == points;
    }
  }

  /**
   * `draw_cube`: the glyph is written exactly at the in-bounds cells that one
   * of the 6 face fills writes; every other cell keeps its content.
   */
  method DrawCube(canvas: Canvas, vertices: seq<Point>)
    requires canvas.Valid() && |vertices| == 8
    modifies canvas.cells
    ensures forall r, c :: canvas.InBounds(r, c) ==>
      canvas.cells[r, c] == if OnFaces(vertices, |Faces|, r, c) then Glyph else old(canvas.cells[r, c])
  {
    TablesInRange();
    for k := 0 to |Faces|
      invariant forall r, c :: canvas.InBounds(r, c) ==>
        canvas.cells[r, c] == if OnFaces(vertices, k, r, c) then Glyph else old(canvas.cells[r, c])
    {
      var (a, b, c, d) := Faces[k];
      var p0, p1, p2, p3 := vertices[a], vertices[b], vertices[c], vertices[d];
      ghost var q := FaceQuad(vertices, k);
      assert Quad(Point(p0.x, p0.y), Point(p1.x, p1.y), Point(p2.x, p2.y), Point(p3.x, p3.y)) == q;
      FillArea(canvas, p0.x, p0.y, p1.x, p1.y, p2.x, p2.y, p3.x, p3.y);
      forall r, c | canvas.InBounds(r, c)
        ensures canvas.cells[r, c] == if OnFaces(vertices, k + 1, r, c) then Glyph else old(canvas.cells[r, c])
      {
        OnFacesStep(vertices, k, r, c);
      }
    }
  }

  lemma OnFacesStep(vertices: seq<Point>, k: int, r: int, c: int)
    requires |vertices| == 8 && 0 <= k < |Faces|
    ensures OnFaces(vertices, k + 1, r, c) <==> OnFaces(vertices, k, r, c) || Covers(FaceQuad(vertices, k), r, c)
  {
  }

  /** Drawing the edges twice leaves the screen as drawing them once does. */
  method DrawCubeEdgesTwice(canvas: Canvas, vertices: seq<Point>)
    requires canvas.Valid() && |vertices| == 8
    modifies canvas.cells
    ensures forall r, c :: canvas.InBounds(r, c) ==>
      canvas.cells[r, c] == if OnEdges(vertices, |Edges|, r, c) then Glyph else old(canvas.cells[r, c])
  {
    DrawCubeEdges(canvas, vertices);
    DrawCubeEdges(canvas, vertices);
  }

  /** Filling the faces twice leaves the screen as filling them once does. */
  method DrawCubeTwice(canvas: Canvas, vertices: seq<Point>)
    requires canvas.Valid() && |vertices| == 8
    modifies canvas.cells
    ensures forall r, c :: canvas.InBounds(r, c) ==>
      canvas.cells[r, c] == if OnFaces(vertices, |Faces|, r, c) then Glyph else old(canvas.cells[r, c])
  {
    DrawCube(canvas, vertices);
    DrawCube(canvas, vertices);
  }
}
